# Verification of the hardware abstraction layers

This project models seven stateful parts of the board's hardware abstraction layers in Dafny and
proves properties of them that span several functions and every run. `dafny verify dfyconfig.toml`
checks all of it. One module, one file.

**Camera buffers.** `OsalQueue` is the ring of heap nodes behind the frame queue, a class whose
methods refine a bounded FIFO. `CameraBuffers` interleaves the worker thread, the preview thread and
the kernel driver over an ownership map: every buffer has exactly one owner in every reachable
state, no slot is overwritten while it is queued or previewed, and frames are shown in capture
order; `CameraFates` accounts for every frame, shown or not. The kernel follows the memory mapped
streaming discipline of the V4L2 API, section 3.2.

**Audio.** `AudioLocks` describes every entry point by the mutex operations it performs and runs any
number of threads over any number of streams; no reachable state is deadlocked. `EchoReference`
interleaves the thread that holds the device mutex with the streams that keep running without it,
and shows that no reference is used after, or more than once, released. `CapturePath` follows frames
from the driver through the period buffer and the preprocessing buffer: nothing is lost, duplicated
or reordered.

**Sensors.** `InputEventReader` (a ring with a spill area), `AccelSensor` (a decoder over it) and
`SensorPoll` (the poll loop) together refine one fold over the input events. `MemsicHal` is the
second, multi-sensor batcher, with its partial deliveries.

**Pixels.** `Converters` holds the colour arithmetic and its error bounds. `FrameFormats` proves the
pointer-walking loops equal to a closed form for each pixel, and that chroma swapping, YUYV
packing, and encoding keep the rendered image.

**Magnetometer.** `MagCentre` is the centre estimator with its two sorted buffers per coordinate,
one of which mirrors the other.

**GPS.** `NmeaReader` compares the byte-at-a-time framing of NMEA 0183, section 5.3, sentences with
splitting the stream at its newlines, and the tokenizer with splitting at commas.

**Zoom and focus.** `CropFocus` is the truncating arithmetic of the digital zoom crop and of the
focus areas mapped into it.

Components whose state is a protocol between threads (`CameraBuffers`, `AudioLocks`,
`EchoReference`) are state machines: a step is one constructor of `Event` or one mutex operation, a
run is any list of steps, and each has an invariant that starts true, is kept by every step and so
holds in every reachable state. Components that work in place (queues, readers, decoders, buffers,
conversion loops) are classes and methods over arrays, proved against functions on sequences.

## Where the code falls short of its purpose

- A line of exactly 84 bytes, newline included, makes the framing swallow the line after it: the
  newline is taken for the byte that overflows. `NmeaReader.FramingIsExactIff` gives the exact
  condition, `NmeaReader.ExactLineSwallowsExample` a stream.
- `OSAL_QueueSetElem` compares with the head and with the empty tail slot only; its loop never
  advances. `OsalQueue.SetElemKeepsDuplicatesOutIff` gives the exact condition,
  `OsalQueue.SetElemDuplicateExample` a queue.
- A magnetometer buffer that is full and without spread accepts nothing any more. That happens if and
  only if the first sixteen readings are all equal, and then it happens to both buffers:
  `MagCentre.MaxFrozenIff` and `MagCentre.MinFrozenIff`.
- When poll fails after events were stored, `pollEvents` returns the error and the caller never learns
  of them. `SensorPoll.HidesStoredEventsIff` says for which ring contents, offered events and poll
  answers, `SensorPoll.HidesStoredEventsExample` gives one.
- `read_frames` throws away what it has already copied when a later driver call fails:
  `CapturePath.CaptureStream.ReadFrames` states how many frames that is.
- `setCrop` stores zoom and maximum without a lock. `CropFocus.TornReadAllowedIff` says when a thread
  that reads in between gets settings the range check would allow, `CropFocus.CropInsideIff` for which
  settings at all the crop lies inside the frame, and `CropFocus.TornReadExample` gives a pair for which
  it does not.
- `checkFocusArea` decides by uninitialised memory if an area string has fewer than five numbers and
  nothing is wrong with them: `CropFocus.UndeterminedIff`, with `CropFocus.UndeterminedExample`.
- `data_pick_sensors` picks one sensor even when asked for none: a poll returns no more reports than
  asked for if and only if it is asked for at least one, as `MemsicHal.PollContext.DataPoll` states.

## Model

The main results come first, then what they rest on, module by module.

| member | source | states |
|---|---|---|
| CameraBuffers.ExactlyOneOwner | common/hardware/camera/V4L2CameraDevice.cpp:480-736 | in every reachable state each buffer is owned exactly once, none is lost, and the queue holds no pointer twice |
| CameraBuffers.EveryReleaseAccepted | common/hardware/camera/V4L2CameraDevice.cpp:1048-1066 | every VIDIOC_QBUF is for a buffer the driver does not hold; the ignored error never occurs for that reason |
| CameraBuffers.FramesShownInOrder | common/hardware/camera/V4L2CameraDevice.cpp:665-736 | frames are shown in capture order, each at most once, and a slot being shown describes the pixels its buffer holds at that moment; CameraFates says which frames are shown |
| CameraBuffers.QueueFullMeansAllWaiting | common/hardware/camera/V4L2CameraDevice.cpp:611-616 | the queue-full branch is taken only when all five buffers were granted and neither driver, preview thread nor picture thread owns one |
| CameraBuffers.StepLeavesInUseAlone | common/hardware/camera/V4L2CameraDevice.cpp:533-557 | no step changes mV4l2buf[i] or the pixels of buffer i while i is queued or being previewed |
| CameraFates.EveryFrameHasOneFate | common/hardware/camera/V4L2CameraDevice.cpp:480-736 | over every run, each frame the driver handed out is either shown or on its way to be shown, or lost, never both; it is lost only if a picture was taken of it, four frames were waiting when it was submitted, or its format or size was not the one recorded for it when it was looked at |
| CameraFates.CalmRunShowsAll | common/hardware/camera/V4L2CameraDevice.cpp:480-736 | in a run without pictures, full queues and changes of format or size, the frames shown and on their way are exactly all frames captured, in order |
| AudioLocks.EveryCallDisciplined | common/hardware/audio/audio_hw.c:496-499 | every entry point, on every path, takes mutexes only in the order device, input, output, takes none twice and releases all it took |
| AudioLocks.WaitForAcyclic | common/hardware/audio/audio_hw.c:496-499 | in every reachable state the wait-for relation has no cycle, and its chains have at most four threads |
| AudioLocks.NoDeadlock | common/hardware/audio/audio_hw.c:496-499 | no reachable state is deadlocked, and when all threads are done every mutex is free |
| AudioLocks.EveryRunCanFinish | common/hardware/audio/audio_hw.c:496-499 | every run of any number of threads can be carried on until all their calls are done and every mutex is free |
| EchoReference.ReferencesOutliveTheirUse | common/hardware/audio/audio_hw.c:888-942 | over every run each reference is released at most once, only the current one is unreleased, and no call reaches a released one |
| EchoReference.StreamsHoldTheCurrentOne | common/hardware/audio/audio_hw.c:1408-1436 | the output's reference is null or the device's current live one, and then it is the active output; the input's is too, except inside do_input_standby between put_echo_reference, which may release it, and the store that clears it; while in_read runs under the stream mutex alone there is no exception |
| EchoReference.ActiveOutputHoldsIt | common/hardware/audio/audio_hw.c:805-815 | over every run the active output holds the current reference, except between the steps that create or release it and those that attach or detach it |
| EchoReference.InputStartConnects | common/hardware/audio/audio_hw.c:1287-1291 | starting an input that needs a reference while an output is active, if nothing fails, releases a current reference and leaves both streams holding the same new one |
| OsalQueue.Queue.QueueCreate | common/hardware/camera/OSAL_Queue.c:39-84 | succeeds exactly when enough allocations do; then one cycle of maxElem - 1 empty nodes (one node for smaller values) exists; on failure every node allocated so far is freed once |
| OsalQueue.Queue.Perform | common/hardware/camera/OSAL_Queue.c:112-152 | on the node ring itself: any list of operations leaves it with the contents and history of a bounded FIFO, everything accepted is what was delivered followed by what waits, and the non-null results are exactly what was delivered meanwhile |
| OsalQueue.Queue.QueueTerminate | common/hardware/camera/OSAL_Queue.c:86-110 | whatever the queue holds and wherever its head is, each node of the ring is freed exactly once and none is missed |
| OsalQueue.Queue.QueueSetElem | common/hardware/camera/OSAL_Queue.c:179-210 | returns 0 exactly when there is room, and then the pointer is in the queue: nothing changes if it is the head, else it is appended; the loop that never advances terminates |
| OsalQueue.SetElemKeepsDuplicatesOutIff | common/hardware/camera/OSAL_Queue.c:193-206 | set-element is meant to keep a pointer from being queued twice; it does so if and only if the queue is full or the pointer is not waiting behind the head |
| CapturePath.CaptureStream.ReadFrames | common/hardware/audio/audio_hw.c:1716-1751 | delivers exactly the next frames of the capture and touches nothing else, reads no period that is not needed, terminates; it fails exactly if frames are wanted and the stream is not open, with -ENODEV and nothing moved, or if a driver call it made failed, with that call's status; then the frames left over and all those read before the failing call are lost |
| CapturePath.CaptureStream.ReadRequests | common/hardware/audio/audio_hw.c:1716-1751 | any sequence of read_frames requests returns consecutive slices of the capture, however the requests split it: together the next frames, all of them unless a driver call fails |
| CapturePath.CaptureStream.ProcessFrames | common/hardware/audio/audio_hw.c:1756-1820 | returns with exactly the requested frames as soon as they are complete, or with the error of a read that was needed, what was kept and produced before being unharmed; once the effect fills the room it is given, one more process() call is enough, and if it does so from the start its only call is offered what was kept, made up to the requested frames from the capture, and room for all of them; in general the loop over the reallocated, shifted buffer does the passes of the loop on sequences, up to `limit` of them |
| CapturePath.CaptureStream.ProcessFrameWise | common/hardware/audio/audio_hw.c:1756-1820 | with an effect that works frame by frame, however many it takes at a time, the frames written are the next ones of the capture, mapped, none skipped, repeated or reordered, and the rest is kept |
| CapturePath.CaptureStream.ProcessProductive | common/hardware/audio/audio_hw.c:1756-1820 | with an effect that produces something whenever it is offered the requested number of frames, that many process() calls are enough: the call returns, with all the frames unless a read fails |
| InputEventReader.InputEventCircularReader.Fill | common/hardware/libsensors/InputEventReader.cpp:49-72 | appends exactly the events read, in order; errors and incomplete reads change nothing |
| InputEventReader.InputEventCircularReader.Next | common/hardware/libsensors/InputEventReader.cpp:81-88 | removes exactly the oldest event |
| AccelSensor.Accelerometer.ReadEvents | common/hardware/libsensors/AccelSensor.cpp:237-279 | over any sequence of calls the events delivered are the fold of exactly the events consumed; at most count per call; a short call leaves the ring empty, and one that fills the room stops right after the event that filled it |
| AccelSensor.DeliversExactlyAtSync | common/hardware/libsensors/AccelSensor.cpp:250-276 | a report is delivered exactly at a synchronisation event with the sensor enabled and an axis touched since the previous one; it has that event's time and the latest value of each axis |
| SensorPoll.PollContext.PollEvents | common/hardware/libsensors/sensors.cpp:197-240 | for any state it begins in and any answers of poll: what arrived is exactly what the rounds played offered, what is stored is what the driver makes of it up to count, no round is played after one that filled the room, failed or found nothing ready, and the result follows; if there is room left nothing read still waits, otherwise consumption stopped right after the event that filled the room; it hides stored events exactly when poll fails in a round by which the input makes some reports but not enough to fill the room |
| SensorPoll.HidesStoredEventsIff | common/hardware/libsensors/sensors.cpp:223-227 | exact condition, on what comes in: the caller is not told of events stored for it if and only if in some round, all earlier ones having found a descriptor ready, poll fails while the input up to then makes at least one report and fewer than count |
| SensorPoll.EndIsUnique | common/hardware/libsensors/sensors.cpp:197-240 | how many rounds are played, how many events are stored and what is returned are determined by the rounds and the reports the input makes |
| SensorPoll.OutcomeOfLastRound | common/hardware/libsensors/sensors.cpp:219-239 | after the last round a call returns count if the input makes that many reports, else the error of poll, else the reports there are, and else waits; a round is the last if poll fails, neither descriptor is ready, or the room is filled |
| MemsicHal.PollContext.DataPoll | common/hardware/memsic/hal/sensors_hal.c:528-653 | pending reports are handed over without reading; otherwise it reads exactly up to the event that makes something due, returns 0x7FFFFFFF exactly when that event is SYN_CONFIG, and stays blocked only while nothing is due; the reports delivered, followed by those pending, are what the input read so far makes due; -1 exactly for bad arguments; it returns more than `count` reports exactly if count is 0 |
| MemsicHal.PollContext.ResumePoll | common/hardware/memsic/hal/sensors_hal.c:551-652 | a blocked poll goes on where it stopped, with the same guarantees |
| MemsicHal.PollContext.DeliveredInBatches | common/hardware/memsic/hal/sensors_hal.c:528-653 | over any sequence of polls the reports delivered followed by those pending are one batch for each synchronisation read after sensors were touched: those sensors exactly once, ids descending, with the values and time of that report |
| MemsicHal.TouchedIff | common/hardware/memsic/hal/sensors_hal.c:551-652 | a sensor counts as touched exactly if an event wrote one of its axes since the last synchronisation event |
| MemsicHal.LatestWriteCounts | common/hardware/memsic/hal/sensors_hal.c:563-632 | each axis of a sensor has the value of the latest event that wrote it |
| MemsicHal.LatestStatusCounts | common/hardware/memsic/hal/sensors_hal.c:615-629 | a sensor's status is that of the latest event that set it |
| FrameFormats.YUV420SToRGB | common/hardware/camera/Converters.cpp:28-86 | the loops with walking and restored pointers compute the closed-form image, for either pixel format |
| FrameFormats.FrameRoundTrip | common/hardware/camera/Converters.cpp:58-86 | an image constant on 2 x 2 blocks survives encoding as NV12 and rendering within 2 on red, 2 on green and 3 on blue at every pixel of every even-sized frame |
| FrameFormats.YuyvKeepsImage | common/hardware/camera/V4L2CameraDevice.cpp:56-70 | the rendered image of the packed frame shows at each pixel its own luma and the chroma of column x/2 in row 2*(y/2) of the source, in either pixel format |
| FrameFormats.SwapKeepsImage | common/hardware/camera/PreviewWindow.cpp:40-52 | NV21 rendering after the swap gives the image of the NV12 frame |
| FrameFormats.SwapTwice | common/hardware/camera/PreviewWindow.cpp:40-52 | swapping twice is the identity on every even-sized frame |
| FrameFormats.YUYVToNV12 | common/hardware/camera/V4L2CameraDevice.cpp:56-70 | writes every byte of the target: all lumas, and the chroma of the even rows |
| FrameFormats.PackingCommutes | common/hardware/camera/V4L2CameraDevice.cpp:56-70 | packing the YUYV frame of any image gives the NV12 frame of that image, for every even size |
| Converters.ColourRoundTrip | common/hardware/camera/Converters.h:147-228 | encoding any colour and decoding it again comes within 2, 2 and 3 of it |
| Converters.NoTruncation | common/hardware/camera/Converters.h:147-158 | the encoder stays within the studio range of ITU-R BT.601, section 2.5, so its casts lose nothing |
| Converters.BoundsAttained | common/hardware/camera/Converters.h:147-228 | three colours for which the round trip errs by exactly 2 on red, 2 on green and 3 on blue, so the bounds are sharp |
| MagCentre.JointInvariant | common/hardware/memsic/adapter/sensors_algo_ids_h6.c:487-538 | over every run: one buffer ascending, the other descending, both made of past readings, sums in order from the sixteenth reading on |
| MagCentre.AveragesInOrderIff | common/hardware/memsic/adapter/sensors_algo_ids_h6.c:540-557 | the maximum average is at least the minimum average if and only if sixteen readings have come in |
| MagCentre.CentreBetween | common/hardware/memsic/adapter/sensors_algo_ids_h6.c:540-561 | from the sixteenth reading on the centre lies between the smallest and the largest reading |
| MagCentre.CentreOfSixteen | common/hardware/memsic/adapter/sensors_algo_ids_h6.c:540-561 | after exactly sixteen readings the centre is their mean |
| MagCentre.CentreMoves | common/hardware/memsic/adapter/sensors_algo_ids_h6.c:495-561 | after more, a reading accepted by one of the buffers moves the centre by a thirty-second of its distance from the element that leaves, and any other leaves it where it is |
| MagCentre.AcceptedStep | common/hardware/memsic/adapter/sensors_algo_ids_h6.c:439-461 | after any sixteen or more readings, one that exceeds the maximum by less than 4/3 of the spread becomes the new maximum and the smallest element leaves; any other changes nothing |
| MagCentre.AcceptedMinStep | common/hardware/memsic/adapter/sensors_algo_ids_h6.c:463-485 | after any sixteen or more readings, one that falls short of the minimum by less than 4/3 of the spread becomes the new minimum and the largest element leaves; any other changes nothing |
| MagCentre.MaxFrozenIff | common/hardware/memsic/adapter/sensors_algo_ids_h6.c:439-461 | exact condition: a full maximum buffer is never changed again by readings in range if and only if the first sixteen readings were all equal |
| MagCentre.MinFrozenIff | common/hardware/memsic/adapter/sensors_algo_ids_h6.c:463-485 | the minimum buffer freezes under exactly the same condition |
| MagCentre.Axis.Update | common/hardware/memsic/adapter/sensors_algo_ids_h6.c:495-559 | one reading of one coordinate: buffers as specified, and the centre, which is the mean after sixteen readings and stays between the extremes from then on |
| NmeaReader.FramingIsExactIff | common/hardware/libhardware/gps/gps.c:529-550 | for every byte stream the lines handed over are exactly those of at most 83 bytes, in order and unchanged, if and only if no such line follows an odd run of lines of exactly 84 bytes |
| NmeaReader.Reader.AddC | common/hardware/libhardware/gps/gps.c:529-550 | one byte moves the machine as specified; pos stays within 0..83 |
| NmeaReader.Tokenize | common/hardware/libhardware/gps/gps.c:70-114 | the tokens of a sentence are the first sixteen non-empty fields of its body, in order |
| NmeaReader.FieldsRoundTrip | common/hardware/libhardware/gps/gps.c:92-110 | fields are free of commas, and joining them with commas gives the sentence back |
| CropFocus.CropInsideFrame | common/hardware/camera/V4L2CameraDevice.cpp:35-54 | the crop lies inside the frame, centred to within a pixel, at least a third of it each way |
| CropFocus.CropInsideIff | common/hardware/camera/V4L2CameraDevice.cpp:35-54 | for any settings, with zero excluded as divisor, the crop lies inside the frame if and only if the zoom factor, positive or negative, makes both sides fit |
| CropFocus.TornReadAllowedIff | common/hardware/camera/V4L2CameraDevice.h:177-182 | the two settings are stored without a lock: whatever a reader picks up between the stores, the pair is one the range check would allow if and only if it reads no zoom or the first call had stored its maximum |
| CropFocus.CropsNest | common/hardware/camera/V4L2CameraDevice.cpp:35-54 | the crop of a larger zoom lies inside that of a smaller one |
| CropFocus.FocusStaysInCrop | common/hardware/camera/CameraHardware.cpp:996-1000 | every focus area the check accepts maps to a point between the images of its edges, inside the current crop, and so of the frame |
| CropFocus.CheckFocusArea | common/hardware/camera/CameraHardware.cpp:1210-1266 | for any numbers and any previous contents of the array they are parsed into: more than five are rejected, and otherwise the five values are accepted exactly if all are zero, or the weight is positive and the bounds are ordered within -1000..1000 |
| CropFocus.UndeterminedIff | common/hardware/camera/CameraHardware.cpp:1218-1235 | the answer depends on uninitialised memory if and only if there are fewer than five numbers and nothing is wrong with them yet |
| OsalQueue.RunIsFifo | common/hardware/camera/OSAL_Queue.c:112-152 | over every run of put, get and set-element operations, what was accepted equals what was delivered followed by what waits, and never more than the capacity waits; by Queue.Perform the node ring does such runs |
| OsalQueue.SetElemDuplicateExample | common/hardware/camera/OSAL_Queue.c:193-206 | a concrete queue in which set-element stores the same pointer a second time |
| OsalQueue.RoomForOneLess | common/hardware/camera/OSAL_Queue.c:65-81 | a queue created for two or more elements has room for one less, one created for one has room for one |
| OsalQueue.Queue.FreeChain | common/hardware/camera/OSAL_Queue.c:67-73 | the clean-up after a failed allocation frees the whole chain in order and reads no node after freeing it |
| OsalQueue.Queue.FreeRing | common/hardware/camera/OSAL_Queue.c:96-105 | the loop of terminate, plus the free after it, walks the ring once from the head |
| OsalQueue.Queue.Enqueue | common/hardware/camera/OSAL_Queue.c:112-130 | returns 0 exactly when there is room and then appends to the FIFO, else returns -1 with nothing changed; the node ring stays the same |
| OsalQueue.Queue.Dequeue | common/hardware/camera/OSAL_Queue.c:132-152 | returns and removes the oldest element, or null on an empty queue |
| OsalQueue.Queue.GetElemNum | common/hardware/camera/OSAL_Queue.c:154-165 | the counter always equals the number of waiting elements |
| CameraBuffers.PreviewSlotMapped | common/hardware/camera/V4L2CameraDevice.cpp:680-684 | the index read from a slot is the slot's own and a mapped buffer |
| CameraBuffers.StepPartitioned | common/hardware/camera/V4L2CameraDevice.cpp:480-736 | every step of every thread and of the driver keeps exactly one owner per buffer |
| CameraBuffers.StepIntact | common/hardware/camera/V4L2CameraDevice.cpp:533-557 | a queued or previewed slot keeps describing the very frame its buffer holds |
| CameraBuffers.StepOrdered | common/hardware/camera/V4L2CameraDevice.cpp:480-736 | every step keeps shown, previewed, queued and recorded frames in capture order |
| CameraBuffers.StepInv | common/hardware/camera/V4L2CameraDevice.cpp:480-736 | every step keeps the whole invariant |
| CameraBuffers.ReachableInv | common/hardware/camera/V4L2CameraDevice.cpp:480-736 | the invariant holds in every state any interleaving can reach |
| CameraFates.RunOnRecord | common/hardware/camera/V4L2CameraDevice.cpp:533-557 | what the threads find in mV4l2buf for a frame that counts is what the worker's steps recorded for it, whatever has happened since |
| CameraFates.PreviewRoundShows | common/hardware/camera/V4L2CameraDevice.cpp:665-736 | whenever frames wait and the preview thread is idle, it can take the oldest, show it and give its buffer back to the driver, and nothing else changes |
| CameraFates.WorkerRoundQueues | common/hardware/camera/V4L2CameraDevice.cpp:490-616 | whenever the driver holds a buffer and the queue has room, the worker can dequeue it, record its frame and queue it last |
| CameraFates.WorkerRoundGivesBack | common/hardware/camera/V4L2CameraDevice.cpp:490-616 | with four frames waiting it gives the buffer straight back |
| AudioLocks.OutStandbyDisciplined | common/hardware/audio/audio_hw.c:1031-1042 | out_standby, also as called when closing an output, takes mutexes only in the documented order, none twice, and releases all of them on every path |
| AudioLocks.OutSetParametersDisciplined | common/hardware/audio/audio_hw.c:1049-1117 | out_set_parameters, which may bring the active input into standby and then the output, takes mutexes only in the documented order, none twice, and releases all of them on every path |
| AudioLocks.OutWriteDisciplined | common/hardware/audio/audio_hw.c:1137-1247 | out_write, which lets go of the device before the stream and may take the device again at the end, takes mutexes only in the documented order, none twice, and releases all of them on every path |
| AudioLocks.InReadDisciplined | common/hardware/audio/audio_hw.c:1822-1868 | in_read, which may start the stream and replace the echo reference first, takes mutexes only in the documented order, none twice, and releases all of them on every path |
| AudioLocks.MaybeStandbyDisciplined | common/hardware/audio/audio_hw.c:1456-1499 | each input entry point that may force standby (in_set_parameters, adding and removing effects) takes mutexes only in the documented order, none twice, and releases all of them on every path |
| AudioLocks.AdevSetModeDisciplined | common/hardware/audio/audio_hw.c:2146-2158 | adev_set_mode with force_all_standby takes mutexes only in the documented order, none twice, and releases all of them on every path |
| AudioLocks.ProgramDisciplined | common/hardware/audio/audio_hw.c:496-499 | any sequence of calls made by one thread obeys the documented lock order and ends holding nothing |
| AudioLocks.StepInv | common/hardware/audio/audio_hw.c:496-499 | every step of any thread keeps held mutexes and remaining work disciplined |
| AudioLocks.ReachableInv | common/hardware/audio/audio_hw.c:496-499 | in every state any schedule of any number of threads can reach, what each thread holds and still has to do obeys the lock order |
| AudioLocks.WaitingGoesUp | common/hardware/audio/audio_hw.c:496-499 | along the wait-for relation the rank of the wanted mutex goes up, and whoever holds a mutex has work left |
| AudioLocks.StepsCountDown | common/hardware/audio/audio_hw.c:496-499 | no run has more steps than the calls have mutex operations |
| AudioLocks.CallsLockWhatTheyWorkOn | common/hardware/audio/audio_hw.c:603-621 | each call takes the mutex of every stream it works on, no others but the device's, and that one first |
| EchoReference.StepInv | common/hardware/audio/audio_hw.c:1287-1291 | every step keeps the invariant and calls only into references that are still live |
| EchoReference.ReachableInv | common/hardware/audio/audio_hw.c:888-942 | the invariant holds after every interleaving |
| EchoReference.InputStandbyReleases | common/hardware/audio/audio_hw.c:1408-1436 | bringing that input into standby takes the reference from both streams and releases it |
| EchoReference.OutputStartAttaches | common/hardware/audio/audio_hw.c:805-815 | an output started while there is a current reference gets it |
| CapturePath.CaptureStream.PcmRead | common/hardware/audio/audio_hw.c:1678-1681 | the contract of the driver call: one full period on success, nothing on failure |
| CapturePath.CaptureStream.GetNextBuffer | common/hardware/audio/audio_hw.c:1657-1698 | hands out the next frames of the capture, reads a period exactly when the previous one is used up, keeps 0 <= frames_in <= period_size; otherwise the status is that of the driver call it made, or -ENODEV on a stream that is not open |
| CapturePath.CaptureStream.ReleaseBuffer | common/hardware/audio/audio_hw.c:1700-1712 | moves the position in the capture on by the frames released |
| CapturePath.CaptureStream.ReadChunk | common/hardware/audio/audio_hw.c:1721-1748 | one pass of the loop copies the next frames of the capture behind those already there, or fails with the driver call it made |
| CapturePath.SplitDoesNotMatter | common/hardware/audio/audio_hw.c:1716-1751 | consecutive slices of the sizes requested make up one slice of their total size; ReadRequests uses it for the code |
| CapturePath.CaptureStream.Reload | common/hardware/audio/audio_hw.c:1765-1786 | afterwards the frames kept, made up to the requested number from the capture, are buffered; otherwise the error is that of a driver call made, or -ENODEV, and the frames kept are unchanged |
| CapturePath.CaptureStream.Append | common/hardware/audio/audio_hw.c:1777-1785 | frames read are appended behind those left over, in capture order, never beyond proc_buf_size; a failed read leaves those alone, and the capture stays gapless exactly if it lost nothing |
| CapturePath.CaptureStream.ProcessOnce | common/hardware/audio/audio_hw.c:1793-1811 | one process call consumes a prefix of the buffer, its output lands at the write position, and the rest stays in order |
| CapturePath.CaptureStream.Process | common/hardware/audio/audio_hw.c:1793-1801 | the effect is offered the whole buffer and its output lands at the write position |
| CapturePath.CaptureStream.DropFront | common/hardware/audio/audio_hw.c:1806-1811 | the frames not consumed end up at the front, unchanged |
| CapturePath.FillingStops | common/hardware/audio/audio_hw.c:1795-1817 | on sequences: no pass follows one in which the effect filled its room |
| CapturePath.PassOnWorks | common/hardware/audio/audio_hw.c:1791-1804 | an effect that passes on what there is room for meets every assumption made about effects |
| CapturePath.PassesProduce | common/hardware/audio/audio_hw.c:1764-1818 | on sequences: with such an effect every pass before the last frame writes something |
| InputEventReader.InputEventCircularReader.Receive | common/hardware/libsensors/InputEventReader.cpp:53-54 | a read never writes outside the array and never over an unread event, also with the head at mBufferEnd |
| InputEventReader.InputEventCircularReader.Advance | common/hardware/libsensors/InputEventReader.cpp:59-68 | the wrap copy never overwrites an unread event and completes the append |
| InputEventReader.InputEventCircularReader.ReadEvent | common/hardware/libsensors/InputEventReader.cpp:74-79 | an event is available exactly when the queue is not empty, and it is the oldest one |
| AccelSensor.PendingIffTouched | common/hardware/libsensors/AccelSensor.cpp:250-276 | a report is pending exactly if an axis event has come in since the last synchronisation |
| AccelSensor.LatestAxisEventCounts | common/hardware/libsensors/AccelSensor.cpp:281-308 | each axis of the pending report has the value of the latest event for it |
| AccelSensor.UntouchedAxisKeeps | common/hardware/libsensors/AccelSensor.cpp:281-308 | an axis of which no event has come keeps its initial value |
| AccelSensor.TimeSplits | common/hardware/libsensors/AccelSensor.cpp:256-260 | seconds and microseconds of the event can be read off the report's time |
| AccelSensor.Accelerometer.Enable | common/hardware/libsensors/AccelSensor.cpp:94-126 | switches its one sensor, rejects other handles, and disturbs no pending data |
| AccelSensor.Accelerometer.ProcessEvent | common/hardware/libsensors/AccelSensor.cpp:281-308 | updates one axis and the pending mask as the fold does |
| AccelSensor.Accelerometer.Digest | common/hardware/libsensors/AccelSensor.cpp:251-275 | handles one event as the fold does, storing its report if it completes one |
| AccelSensor.Accelerometer.HandleEvent | common/hardware/libsensors/AccelSensor.cpp:250-276 | one iteration takes exactly one event and keeps the fold |
| AccelSensor.Accelerometer.Drain | common/hardware/libsensors/AccelSensor.cpp:250-278 | the loop terminates, stores only from its start position on and keeps the fold |
| SensorPoll.PollContext.ServeSensor | common/hardware/libsensors/sensors.cpp:204-217 | reads exactly what is offered and fits, if POLLIN is set and there is room; a sensor that did not fill the room has an empty ring |
| SensorPoll.NoLastRound | common/hardware/libsensors/sensors.cpp:219-239 | without such a round the call is still waiting |
| SensorPoll.ReadInRound | common/hardware/libsensors/sensors.cpp:204-217 | a round reads what is offered, as far as it fits, if the poll before found the driver ready, and nothing otherwise |
| SensorPoll.MadeGrows | common/hardware/libsensors/sensors.cpp:204-217 | later rounds only add reports |
| SensorPoll.NeverEmptyHanded | common/hardware/libsensors/sensors.cpp:219-239 | the result is 0 only if there was no room |
| SensorPoll.PollContext.StoredIsMade | common/hardware/libsensors/sensors.cpp:204-217 | the number of events stored is the number of reports the input so far makes, or count if that is less |
| SensorPoll.PollContext.PlayOn | common/hardware/libsensors/sensors.cpp:202-237 | a round ends the call as its poll answer says, or leaves it ready for the next one |
| SensorPoll.HidesStoredEventsExample | common/hardware/libsensors/sensors.cpp:223-227 | a concrete ring content and poll answer for which one event is stored and the caller sees an error only |
| MemsicHal.TargetOf | common/hardware/memsic/hal/sensors_hal.c:563-632 | every axis code writes to a supported sensor |
| MemsicHal.Highest | common/hardware/memsic/hal/sensors_hal.c:435-435 | the bit found is the highest one of the mask |
| MemsicHal.DescendingExactlyOnce | common/hardware/memsic/hal/sensors_hal.c:434-449 | a batch holds each requested sensor exactly once, ids strictly descending, with that sensor's values |
| MemsicHal.SyncReportsTouched | common/hardware/memsic/hal/sensors_hal.c:640-649 | one synchronisation event makes exactly the touched sensors due, once each, descending, with their values and the time of that event |
| MemsicHal.UnwrittenIsZero | common/hardware/memsic/hal/sensors_hal.c:690-716 | an axis never written is zero |
| MemsicHal.StatusTouchesNothing | common/hardware/memsic/hal/sensors_hal.c:615-629 | an event that sets a status touches no sensor, changes no axis and makes nothing due |
| MemsicHal.CodesAndTargets | common/hardware/memsic/hal/sensors_hal.c:563-632 | each axis and each status of a sensor is written by exactly one input code, that of the table of codes |
| MemsicHal.TimeSplits | common/hardware/memsic/hal/sensors_hal.c:642-643 | seconds and microseconds of the event can be read off the report's time |
| MemsicHal.DueInBatches | common/hardware/memsic/hal/sensors_hal.c:551-652 | what is due altogether is one batch for each synchronisation that found touched sensors, in order, none missing |
| MemsicHal.PollContext.DataPickSensors | common/hardware/memsic/hal/sensors_hal.c:428-460 | picks pending sensors highest first, exactly as many as fit (one for count 0), and leaves the others pending; the loop ends because its mask shrinks |
| MemsicHal.PollContext.StampSensors | common/hardware/memsic/hal/sensors_hal.c:642-648 | stamps exactly the sensors of the mask; the loop ends because its mask shrinks |
| MemsicHal.PollContext.Deliver | common/hardware/memsic/hal/sensors_hal.c:546-549 | what is handed over now and later is what was pending; more than asked for exactly if asked for none |
| MemsicHal.PollContext.Gather | common/hardware/memsic/hal/sensors_hal.c:563-632 | an axis event touches its sensor only, and nothing is lost before the synchronisation |
| MemsicHal.PollContext.Synchronise | common/hardware/memsic/hal/sensors_hal.c:633-649 | the touched sensors become pending with the time of the event; SYN_CONFIG drops them |
| MemsicHal.PollContext.AwaitReport | common/hardware/memsic/hal/sensors_hal.c:551-652 | reads exactly up to the first event that is SYN_CONFIG or makes something due: nothing beyond what was delivered was due before it and no earlier one was SYN_CONFIG; if the input ends first nothing is due and the touched sensors are handed back |
| MemsicHal.PollContext.ReadLoop | common/hardware/memsic/hal/sensors_hal.c:551-652 | the loop itself reads on exactly until SYN_CONFIG or a report is due, or the input ends |
| Converters.GreysHaveNoChroma | common/hardware/camera/Converters.h:147-228 | greys have no chroma, black and white are the ends of the luma range, and a pixel without chroma decodes to a grey |
| Converters.Rgb565IsCoarseRgb32 | common/hardware/camera/Converters.h:204-228 | a 16 bit pixel holds the top five, six and five bits of what the 32 bit conversion computes |
| FrameFormats.RenderAt | common/hardware/camera/Converters.cpp:58-86 | the pixel at (x, y) is the conversion of its own luma and its block's chroma |
| FrameFormats.SampleIsProduct | common/hardware/camera/Converters.cpp:58-86 | the address of chroma sample c is base + dUV * c |
| FrameFormats.PosIsProduct | common/hardware/camera/Converters.cpp:58-86 | the position of column x in row y is y * w + x |
| FrameFormats.RenderRow | common/hardware/camera/Converters.cpp:70-77 | one run of the inner loop extends the finished part of the image by a correct row and leaves the chroma pointers behind that row's samples |
| FrameFormats.LayoutsFit | common/hardware/camera/Converters.cpp:97-171 | with the planes each wrapper passes, every address lies inside a frame of w * h * 3 / 2 bytes |
| FrameFormats.NV12ToRGB32 | common/hardware/camera/Converters.cpp:149-155 | every pixel of the output is the closed-form conversion of the NV12 frame's samples for it, and every pixel is written |
| FrameFormats.NV21ToRGB32 | common/hardware/camera/Converters.cpp:165-171 | every pixel of the output is the closed-form conversion of the NV21 frame's samples for it, and every pixel is written |
| FrameFormats.YU12ToRGB32 | common/hardware/camera/Converters.cpp:106-113 | every pixel of the output is the closed-form conversion of the planar frame's samples for it, U plane first |
| FrameFormats.YV12ToRGB32 | common/hardware/camera/Converters.cpp:97-104 | every pixel of the output is the closed-form conversion of the planar frame's samples for it, V plane first |
| FrameFormats.InterleavedSamples | common/hardware/camera/Converters.cpp:149-171 | which bytes an NV12 and an NV21 rendering read for a pixel: they differ by swapping the pair |
| FrameFormats.PlanarSamples | common/hardware/camera/Converters.cpp:97-113 | which bytes the two planar renderings read for a pixel: they differ by swapping the planes |
| FrameFormats.ChromaIndexIsProduct | common/hardware/camera/Converters.cpp:58-86 | the chroma sample of pixel (x, y) is number (y/2)*(w/2)+x/2 |
| FrameFormats.NV12ToNV21 | common/hardware/camera/PreviewWindow.cpp:40-52 | copies the lumas and swaps each chroma pair |
| FrameFormats.SwapKeepsPixel | common/hardware/camera/PreviewWindow.cpp:40-52 | a pixel of the swapped frame read as NV21 has the samples of the original read as NV12 |
| FrameFormats.PackRowPair | common/hardware/camera/V4L2CameraDevice.cpp:56-70 | one pass of the outer loop fills its two luma rows and its chroma row and disturbs nothing else |
| FrameFormats.YuyvKeepsPixel | common/hardware/camera/V4L2CameraDevice.cpp:56-70 | reading the result as NV12 finds at each pixel its own luma and the chroma of column x/2 in row 2*(y/2) of the source |
| MagCentre.SortAscSorts | common/hardware/memsic/adapter/sensors_algo_ids_h6.c:422-433 | sorting yields a sorted permutation with the same sum |
| MagCentre.MinMirrorsMax | common/hardware/memsic/adapter/sensors_algo_ids_h6.c:427-437 | one minimum update is the mirror image of a maximum update of the negated reading |
| MagCentre.MaxInvariant | common/hardware/memsic/adapter/sensors_algo_ids_h6.c:487-501 | over every run the maximum buffer is sorted, holds placeholders and past readings only, and its sum never drops below that of the first sixteen readings |
| MagCentre.MinBufferMirrors | common/hardware/memsic/adapter/sensors_algo_ids_h6.c:487-508 | over every run the minimum buffer mirrors a maximum buffer fed with negated readings |
| MagCentre.MinInvariant | common/hardware/memsic/adapter/sensors_algo_ids_h6.c:487-508 | over every run the minimum buffer is descending, holds placeholders and past readings only, and its sum never exceeds that of the first sixteen readings |
| MagCentre.BuffersHoldReadings | common/hardware/memsic/adapter/sensors_algo_ids_h6.c:487-538 | from the sixteenth reading on both buffers hold past readings only |
| MagCentre.CentreMirrors | common/hardware/memsic/adapter/sensors_algo_ids_h6.c:487-561 | negating every reading negates the centre |
| MagCentre.NotBoth | common/hardware/memsic/adapter/sensors_algo_ids_h6.c:495-508 | no reading is accepted by both full buffers |
| MagCentre.EqualStartFreezes | common/hardware/memsic/adapter/sensors_algo_ids_h6.c:439-461 | after sixteen equal first readings no further reading in range changes the maximum buffer |
| MagCentre.NoSpreadIff | common/hardware/memsic/adapter/sensors_algo_ids_h6.c:439-461 | over every run, a full maximum buffer has no spread exactly if the first sixteen readings were all equal |
| MagCentre.FillingKeepsAll | common/hardware/memsic/adapter/sensors_algo_ids_h6.c:495-501 | while it fills up, the maximum buffer holds every reading as often as it came in, besides placeholders |
| MagCentre.CalcMagCentre | common/hardware/memsic/adapter/sensors_algo_ids_h6.c:487-564 | the three coordinates are updated independently of each other |
| MagCentre.SumArray | common/hardware/memsic/adapter/sensors_algo_ids_h6.c:540-549 | the summing loops add up every element of a buffer |
| MagCentre.QSortAscending | common/hardware/memsic/adapter/sensors_algo_ids_h6.c:432-432 | the contract of qsort with float_max: ascending, in place |
| MagCentre.QSortDescending | common/hardware/memsic/adapter/sensors_algo_ids_h6.c:433-433 | the contract of qsort with float_min: descending, in place |
| MagCentre.MagneticMaxIsValid | common/hardware/memsic/adapter/sensors_algo_ids_h6.c:439-461 | the loop over neighbour differences decides for a new maximum by the buffer's spread |
| MagCentre.MagneticMinIsValid | common/hardware/memsic/adapter/sensors_algo_ids_h6.c:463-485 | the loop over neighbour differences decides for a new minimum by the buffer's spread |
| MagCentre.OfferMax | common/hardware/memsic/adapter/sensors_algo_ids_h6.c:495-501 | in place, the maximum buffer changes exactly as the update studied by the run lemmas says |
| MagCentre.OfferMin | common/hardware/memsic/adapter/sensors_algo_ids_h6.c:502-508 | in place, the minimum buffer changes exactly as the update studied by the run lemmas says |
| NmeaReader.OverflowsAt84 | common/hardware/libhardware/gps/gps.c:537-541 | byte 84 of a line sets the overflow flag and is dropped, whatever it is |
| NmeaReader.OneLine | common/hardware/libhardware/gps/gps.c:529-550 | a line of at most 83 bytes is handed over unchanged; a longer one vanishes, and one of exactly 84 bytes leaves the overflow flag set |
| NmeaReader.FramesLines | common/hardware/libhardware/gps/gps.c:529-550 | for any list of lines, what is handed over is each line that fits and is not swallowed, a line being swallowed when it comes next after a line of exactly 84 bytes that was not itself swallowed |
| NmeaReader.SplitLines | common/hardware/libhardware/gps/gps.c:529-550 | every stream is a list of lines followed by an incomplete one |
| NmeaReader.FramingWithoutExactLines | common/hardware/libhardware/gps/gps.c:529-550 | for every stream without a line of exactly 84 bytes, the lines handed over are exactly those of at most 83 bytes, in order and unchanged |
| NmeaReader.ExactLineSwallowsExample | common/hardware/libhardware/gps/gps.c:537-541 | a concrete stream in which an 84 byte line swallows the short line after it |
| NmeaReader.BodyOfSentence | common/hardware/libhardware/gps/gps.c:76-90 | of a sentence with dollar sign, checksum and line end exactly the payload is left |
| NmeaReader.BodyWithoutChecksum | common/hardware/libhardware/gps/gps.c:76-90 | so it is without a checksum, and with any of the other parts missing |
| NmeaReader.NonEmptyKeeps | common/hardware/libhardware/gps/gps.c:98-106 | every field that is not empty is kept, as often as it occurs, and no other |
| NmeaReader.Strip | common/hardware/libhardware/gps/gps.c:76-90 | finds the sentence between the dollar sign and the checksum or line end |
| NmeaReader.FindComma | common/hardware/libhardware/gps/gps.c:95-97 | finds the next comma or the end |
| NmeaReader.CollectTokens | common/hardware/libhardware/gps/gps.c:92-110 | the loop keeps the first sixteen fields that are not empty |
| CropFocus.RatioBounds | common/hardware/camera/V4L2CameraDevice.cpp:46-46 | the zoom factor lies between 100 and 300 percent |
| CropFocus.RatioIsExact | common/hardware/camera/V4L2CameraDevice.cpp:46-46 | the zoom factor is 100 percent plus 200 percent of the share of the maximum, rounded down |
| CropFocus.SideIsExact | common/hardware/camera/V4L2CameraDevice.cpp:47-50 | each side of the crop is that of the frame divided by the zoom factor, rounded down, and centred to within a pixel |
| CropFocus.TornReadExample | common/hardware/camera/V4L2CameraDevice.h:177-182 | a reader that picks up the maximum before the first call and the zoom after the second computes a crop turned round |
| CropFocus.Rect.CalculateCrop | common/hardware/camera/V4L2CameraDevice.cpp:35-54 | for any settings with a zoom factor other than zero the rectangle is filled as computed; it lies inside the frame if and only if both sides fit, and always for settings the range check lets through |
| CropFocus.UndeterminedExample | common/hardware/camera/CameraHardware.cpp:1218-1235 | two numbers that are accepted or rejected depending on what the array held before |
| CropFocus.FocusPointMonotone | common/hardware/camera/CameraHardware.cpp:996-1000 | focus areas further right or down map no further left or up |
| CropFocus.MiddleIsHalfWay | common/hardware/camera/CameraHardware.cpp:996-997 | the middle of a focus area is half way between its ends, rounded down |
| CropFocus.FocusPointIsExact | common/hardware/camera/CameraHardware.cpp:999-1000 | its distance from the high edge of the crop is in proportion to that from 1000, rounded down |
| CropFocus.CameraHardware.ParseFocusAreas | common/hardware/camera/CameraHardware.cpp:991-1000 | the focus point stored lies inside the current crop, on both axes, for every area the check accepts |
| CropFocus.CameraHardware.MapFocus | common/hardware/camera/CameraHardware.cpp:996-1000 | the same for any crop that is not turned round |
| CapturePath.CaptureStream.constructor | common/hardware/audio/audio_hw.c:2229-2246 | a fresh stream has captured, buffered and produced nothing |
| InputEventReader.InputEventCircularReader.constructor | common/hardware/libsensors/InputEventReader.cpp:35-42 | an empty queue of the given capacity over an array twice as long |
| AccelSensor.Accelerometer.constructor | common/hardware/libsensors/AccelSensor.cpp:32-57 | a fresh driver has consumed and delivered nothing |
| SensorPoll.PollContext.constructor | common/hardware/libsensors/sensors.cpp:144-168 | nothing buffered, no descriptor ready |
| MemsicHal.PollContext.constructor | common/hardware/memsic/hal/sensors_hal.c:690-716 | nothing pending, nothing delivered |
| MagCentre.Axis.constructor | common/hardware/memsic/adapter/sensors_algo_ids_h6.c:181-188 | the buffers start filled with the two placeholders |
| NmeaReader.Reader.constructor | common/hardware/libhardware/gps/gps.c:221-228 | nothing collected, no overflow |

## Left out

- Foreign calls (ioctl, mmap, read, poll, tinyalsa, gralloc, the JPEG encoder, the compass library, face detection) are parameters or steps with stated contracts; pcm_read returns 0 or a negative status.
- The queue's mutex and its creation failure: the operations are taken as atomic. Data pointers are not null, and OSAL_SetElemNum, which overwrites the counter, is not modelled.
- Several streaming sessions: stopping the device does not flush the queue, so the camera model covers one session that starts with an empty queue, without external calls of releaseRecordingFrame.
- Hardware preview and preview switching: unreachable, because mPreviewUseHW is set behind `0 &&` (common/hardware/camera/V4L2CameraDevice.cpp:403).
- Liveness of the camera threads: their condition waits happen without holding the mutex that would make wake-ups certain.
- VIDIOC_QBUF failing for reasons other than ownership, and a driver that grants more than NB_BUFFER buffers.
- What the picture thread does with the buffer left to it: a picture keeps its buffer until the session ends.
- Which branch an audio entry point takes is left to the environment, so the lock results cover more paths than the code has; calls that return before taking a mutex are not listed.
- More than one open input or output stream in the echo reference model: the code itself does not support it (common/hardware/audio/audio_hw.c:781).
- Failure of the output resampler in start_output_stream: unreachable, since the default output rate is the driver's rate.
- The input resampler and a chain of several effects; the capture path has no resampler and one effect. The echo reference's delay estimation is left out as well.
- CapturePath.CaptureStream.ProcessFrames: followed for up to `limit` process calls, because an effect that never produces anything keeps the source's loop running for ever (ProcessProductive says when it does not); the overlapping memcpy (common/hardware/audio/audio_hw.c:1808) is taken as a move.
- Gapless delivery is stated up to the first failed read that loses frames, because the source does lose them there.
- SensorPoll.PollContext.PollEvents: reads of the driver succeed; the source adds a negative result back to `count` (common/hardware/libsensors/sensors.cpp:208-215), so that room would grow. It is followed for as many rounds as poll answers are given, since poll may wait for ever.
- Sensor axes are those of a build without GSENSOR_XY_REVERT; the conversion factors are parameters; float values are reals; one-bit masks are booleans and other masks sets of bit positions.
- MemsicHal.PollContext.DataPoll: reading stops where the given input ends, and ResumePoll goes on from there; incomplete reads, activation and the accuracy variable are left out.
- YUYVToNV21 and NV12ToNV21_shift, which take chroma from neighbouring pairs; the swapped planes of YV12ToRGB565 and the other RGB565 wrappers, which pass planes on to the loops modelled here; odd frame sizes; the hardware path YUYVToYUV420C. A 32 bit pixel is a record of its four bytes.
- MagCentre: floats are reals, so rounding is left out; readings lie strictly inside the sensor's range; qsort is a sorting function. The h5 copy of the estimator repeats it.
- What nmea_reader_parse does with tokens, including time and coordinate conversion.
- CropFocus: area strings are taken as the numbers in them, so tokenizing and atoi are left out, as is parsing an area of fewer than five numbers in parse_focus_areas. Overflow of 32 bit products is left out, frames being at most 1600 x 1200.
- The recovery and bootloader programs, the radio library, mixer routes and volumes, sensor coordinate tables and CCameraConfig, none of which the components above depend on for their state.
