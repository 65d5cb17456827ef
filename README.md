# LASCON closed-loop arm: a Dafny model

This project models the core of the LASCON closed-loop arm project. The project couples a
NEURON network to two things: a stream of recorded spikes and a simulated arm. The model covers
four components.

- **Spike acquisition** (`server.py`). Decoded messages are split into spike rows and event
  rows. Unsorted spikes are dropped. Rows are reordered by timestamp behind a reorder buffer.
  Spikes that are synchronous across channels are removed (mode 1: identical timestamps;
  mode 2: lone spikes per 1 ms sync window). Spikes are either binned into 100 ms per-channel
  counts (the DP model) or packed into chunks of 20 spikes with a serial number (the NSLOC
  model). Items then pass through a queue that drops stale items when the simulation falls
  more than LR behind.
  Modules: `SpikeRows`, `SpikeReorder`, `SyncFilter`, `SpikeBinning`, `LatencyQueue`,
  `NslocChunks`.
- **Arm controller** (`arm.py`). At setup it fills the proprioceptive tuning table and picks the
  target. At each loop step it:
  - records the error;
  - resets the arm between trials;
  - turns motor-cell spikes into four normalised commands, with antagonist inhibition;
  - moves the kinematic dummy arm, or takes the musculoskeletal plant's reply;
  - drives the proprioceptive cells from the joint angles;
  - measures the distance from hand to target.

  It also computes the reinforcement critic from the error history.
  Modules: `ArmMath` for the pure arithmetic, and `ArmControl` with the `Arm` class.
- **Plant protocol, controller side** (`arminterface.py`). It does the handshake, writes the
  command line, reads reply lines from the plant's output chunks until it has a 2-field joint
  packet and an 18-field muscle packet, handles the end marker and the packet-budget sentinel,
  and aggregates the muscle lengths. Module: `PlantProtocol`, with the `ArmInterface` class.
- **Plant-side handlers** (`msarm/*.cpp`).
  - The excitation setter reads one line of four commands per tick and routes them to the
    muscles by name prefix.
  - The muscle status handler prints the 18 fibre lengths.
  - The coordinate output handler prints the selected joint coordinates.

  Each handler's XML configuration selects muscles, variables or coordinates by name.
  Modules: `MsarmCommon`, `ExcitationHandler`, `MuscleStatusHandler`, `CoordinateOutputHandler`.

The module `PlantLink` reads both ends of the pipe together. It proves three things:
- every status line and coordinate line the plant prints is parsed by the controller into a
  packet of the right size with the printed values;
- every command line the controller writes fills the four excitation slots of the plant;
- the muscles the controller reads back are among those the commands drive.

Several things are parameters of the model rather than part of it:
- the trigonometric and square-root functions (a `Math` record of functions);
- number formatting and parsing (`repr`, `float`, `atof`, stream output).

State that the source keeps in module globals or function attributes becomes a class. In the
server, the reorder buffer, the sync window's remainder and the bin's remainder become classes;
so does the state of `arminterface.py`. Loops become methods proved against specification
functions. Pure Python expressions become functions.

Two details of the source are kept as written, because they are the code's behaviour:
- `arm.py:431` updates the error whenever `initArmMovement` is non-zero. The motor command at
  `arm.py:352` and the critic at `arm.py:135` are gated on `t > initArmMovement` instead.
- `arminterface.py` reads a reply line by line within one chunk of the plant's output, so a line
  split across two chunks is read as two lines.

Three rules of the source are evidently slips; see "## Findings". They are the end timestamp of
an empty chunk (`server.py:1165`), the plant fallback's comparison with `[-3, 3]`
(`arm.py:388`), and the muscle lookup check of the plant handlers. For each, the model
defines the rule as written, with a lemma that shows the input where it goes wrong. It also
defines the corrected rule, and the classes run the corrected rule. The "## Left out" lines
for those classes' members say what they therefore do not reproduce.

## Model

| member | source | states |
|---|---|---|
| SpikeRows.ClarifyEvt | server.py:519-530 | the spike part holds exactly the kind-1 rows and the event part exactly the kind-4 rows, each with its multiplicity and in input order; an empty message gives two empty parts |
| SpikeRows.FilterSysEvt | server.py:533-544 | keeps exactly the rows on the system-event channel, with multiplicity and in order |
| SpikeRows.FilterUnsortedSpk | server.py:632-641 | keeps exactly the spikes of units above 0, with multiplicity and in order |
| SpikeRows.CheckLocalIndexByKey | server.py:179-184 | the stored index for a present key, -1 for a missing one |
| SpikeRows.LocalIndexFound | server.py:179-184 | with non-negative stored indices, a non-negative result holds exactly when the key is present |
| SpikeReorder.SortByTsCorrect | server.py:563-564 | the timestamp sort returns the same rows (as a multiset), sorted by timestamp |
| SpikeReorder.ReleaseSplit | server.py:560-566 | after sorting, the released part holds exactly the rows not newer than the cut and the kept part the newer ones; both are sorted, and together they are sorted and a permutation of the input |
| SpikeReorder.Reorderer.Reorder | server.py:549-570 | releases, sorted, exactly the buffered and arriving rows not newer than the previous buffer maximum; keeps the newer ones sorted; released and kept rows together are a permutation of buffer plus input |
| SpikeReorder.Reorderer.constructor | server.py:550-551 | the buffer starts empty |
| SyncFilter.FilterIdentical | server.py:582-600 | mode 1 emits exactly the rows whose timestamp differs from both neighbours, in input order |
| SyncFilter.IsolatedIsKept | server.py:582-600 | every row isolated from its neighbours is emitted |
| SyncFilter.KeptIsIsolated | server.py:582-600 | only isolated rows are emitted |
| SyncFilter.IsolatedPrefixIsSubseq | server.py:582-600 | the mode-1 output is an order-preserving subsequence of the input |
| SyncFilter.WindowMembers | server.py:618-619 | window i holds exactly the rows with syncWnd*i <= ts < syncWnd*(i+1) |
| SyncFilter.FindWindow | server.py:608-614 | the search ends at the first window index after j whose window holds maxTS |
| SyncFilter.EmitLoneWindows | server.py:617-622 | the emission loop outputs, window by window, the rows that are alone in their window |
| SyncFilter.LoneWindowsOnlyLone | server.py:617-622 | a row is emitted only when it is the single row of one of the closed windows |
| SyncFilter.LoneWindowsComplete | server.py:617-622 | the single row of every closed window is emitted |
| SyncFilter.SyncWindowFilter.constructor | server.py:576-579 | the remainder starts empty and the window index at 0 |
| SyncFilter.SyncWindowFilter.FilterWindows | server.py:603-623 | mode 2 emits the lone rows of the windows closed by this call; it keeps the rows of the still-open window as the remainder and moves the window index to that window |
| SyncFilter.SyncWindowFilter.FilterSyncSpk | server.py:575-629 | mode 1 and mode 2 as above; any other mode emits nothing and keeps the state |
| SpikeBinning.HistogramCounts | server.py:680-685 | slot ch-1 counts the rows on channel ch; the spare slot stays 0 |
| SpikeBinning.HistogramTotal | server.py:670-685 | rows on recording channels are each counted exactly once |
| SpikeBinning.Binner.constructor | server.py:649-654 | no counts, no pending rows and an empty remainder |
| SpikeBinning.Binner.Count | server.py:670-685 | the pending counts grow by exactly the rows inside the bin, on a recording channel and of a valid unit |
| SpikeBinning.Binner.BinSpk | server.py:646-692 | rows at or after the bin end become the remainder; the rows inside the bin are counted; the bin is complete exactly when a remainder exists or the timeout flag is 1; a complete bin with counts hands over every counted spike and restarts |
| SpikeBinning.HandedOverBinIsComplete | server.py:686-691 | the counts of a handed-over bin add up to the number of counted rows |
| LatencyQueue.Admit | server.py:195-210 | the new item is always queued last; when it is more than LR ahead of the simulation only it remains, otherwise the queue is unchanged in front of it |
| LatencyQueue.DepthBound | server.py:195-210 | feeding adds at most one item per call, and after a behind item the queue holds no more than the items fed since |
| LatencyQueue.OnTimeKeepsAll | server.py:195-210 | while the simulation keeps up, every item stays, in arrival order |
| LatencyQueue.DeliveryQueue.constructor | server.py:31 | the queue starts empty with the model's item layout |
| LatencyQueue.DeliveryQueue.Feed | server.py:186-210 | the queue after one feed, at the item's queue time (DP: bin index times binWnd; NSLOC: the last spike's, or the timeout end, timestamp in ms) |
| NslocChunks.ChunkItemTime | server.py:190-194 | a chunk with spikes is queued at its last spike's timestamp in ms |
| NslocChunks.TimeoutItemTime | server.py:1119-1130 | a timeout item is queued at the previous end timestamp plus TIMEOUT, in ms |
| NslocChunks.ChunkEndTsAsWritten | server.py:1165 | the end timestamp as written is read at Python index 3*(dataHave-1)+2, negative indices counting from the end |
| NslocChunks.EmptyChunkEndIsSerial | server.py:1161-1167 | with no spike packed, the as-written end timestamp is the previous serial number, and the corrected one keeps the previous end |
| NslocChunks.ChunkEndTs | server.py:1161-1166 | the corrected end timestamp: the last packed spike's timestamp, or the previous end when nothing was packed |
| NslocChunks.ChunkEndTsOfChunk | server.py:1161-1166 | for a non-empty chunk both rules give its last spike's timestamp; for an empty one the corrected rule keeps the previous end |
| NslocChunks.NslocServer.constructor | server.py:1006-1031 | serial number 1, end timestamp 0, nothing sent |
| NslocChunks.NslocServer.Pack | server.py:1152-1157 | the packed triples grow by the new spike |
| NslocChunks.NslocServer.Send | server.py:1161-1185 | the chunk is queued under the next serial number, as one item of the queue, and the end timestamp becomes its last spike's |
| NslocChunks.NslocServer.SendTimeout | server.py:1115-1130 | an empty item continuing from the previous end is queued, and the end advances by TIMEOUT |
| NslocChunks.NslocServer.Advance | server.py:1142-1185 | one row: a valid spike is packed; the chunk is sent exactly when it is full or the row is the last |
| NslocChunks.NslocServer.Step | server.py:1142-1185 | one iteration of the row loop keeps the loop invariant |
| NslocChunks.NslocServer.PackMessage | server.py:1142-1185 | the chunks sent are the valid spikes of the message, in order, cut after every 20 and after the last row, each queued in turn; the last chunk is empty exactly when the last row is not a valid spike and the valid spikes fill whole chunks |
| NslocChunks.NslocServer.OnMessage | server.py:1115-1185 | an empty message with the timeout flag queues a timeout item; another empty message does nothing; a non-empty one queues its valid spikes cut into chunks of 20, with a trailing empty chunk exactly when the last row is not a valid spike and the valid spikes fill whole chunks; the queue is the result of feeding the new items |
| NslocChunks.LastChunkEmpty | server.py:1142-1163 | after the last row, the chunk sent is empty exactly when that row is not a valid spike and the message's valid spikes fill whole chunks of 20 |
| NslocChunks.ChunkingUnique | server.py:1142-1163 | the chunks of a message are fixed by its valid spikes and by whether the last chunk is empty |
| NslocChunks.ProgressStart | server.py:1142 | the loop invariant holds before the first row |
| NslocChunks.ProgressStep | server.py:1142-1185 | the loop invariant is preserved by one row, including, after the last row, when the last chunk sent is empty |
| NslocChunks.ValidSpikePrefix | server.py:1148-1157 | the valid spikes of one more row |
| ArmMath.SetTargetByID | arm.py:61-71 | a target exists exactly for ids 0..3 |
| ArmMath.TargetGeometry | arm.py:61-71 | each target lies 0.15 m from the start hand position along one axis (right, left, up, down), and different ids give different targets |
| ArmMath.Clamp | arm.py:90-93 | the angle limit: inside [lo, hi] unchanged, below lo becomes lo, above hi becomes hi |
| ArmMath.DummyStepInRange | arm.py:86-105 | the dummy arm's new angles stay within [minPval, maxPval] |
| ArmMath.DummyStepBalanced | arm.py:86-105 | with balanced commands the velocity halves each step, and an arm at rest inside the range stays where it is |
| ArmMath.Normalize | arm.py:365 | every command times cmdmaxrate gives back its spike count |
| ArmMath.InhibitPairSuppresses | arm.py:366-374 | with a gain of at least 1 the dominant channel of a pair is unchanged and the weaker one does not grow and stays non-negative |
| ArmMath.InhibitSuppresses | arm.py:366-374 | for both the shoulder and the elbow pair, with a gain of at least 1: no command grows or turns negative, the dominant command of each pair is unchanged, and each pair keeps its order |
| ArmMath.CriticWindow | arm.py:140 | errorAll[-k:-1] is the k-1 samples before the latest one |
| ArmMath.CriticSignal | arm.py:134-151 | the critic is -1, 0 or 1, and 0 before the movement gate |
| ArmMath.CriticRule | arm.py:134-151 | after the gate with a full window, the critic is 1 exactly when the error fell by more than minRLerror below the window mean, -1 exactly when it rose by more than that, else 0 |
| ArmMath.CriticShortHistory | arm.py:139-143 | with a history shorter than the window the critic is 0 |
| ArmMath.CriticRewardExample | arm.py:134-151 | an error of 0.05 after ten samples of 0.10 is rewarded |
| ArmMath.RangeLowStep | arm.py:262-267 | cells 2i and 2i+1 share a range, and the next pair starts one width higher |
| ArmMath.RangesTile | arm.py:260-267 | the ranges start at minPval, each pair starts where the previous one ends, and the last range ends beyond maxPval |
| ArmMath.CoveringCell | arm.py:260-267 | every angle in [minPval, maxPval) lies in some shoulder cell's range |
| ArmMath.CoverUnique | arm.py:260-267 | no angle lies in the ranges of two different shoulder cells |
| ArmMath.RangesCover | arm.py:260-267 | every angle in [minPval, maxPval) falls in the range of exactly one shoulder cell |
| ArmMath.CellInterval | arm.py:414-417 | the firing interval is 1000/maxPrate inside the range and 1000/minPrate outside; a zero rate raises (None) |
| ArmControl.PlantFallbackAsWritten | arm.py:384-390 | the rule as written: a returned list that is neither empty nor [-3, 3] comes through; a raised call, an empty list or [-3, 3] gives the current angles |
| ArmControl.PlantFallback | arm.py:384-390 | the corrected rule: a returned list that is neither empty nor the [-3, -3] sentinel comes through; a raised call, an empty list or the sentinel gives the current angles; the sentinel comes out only when the arm already stands at -3, -3 |
| ArmControl.FallbacksAgree | arm.py:384-390 | the two rules give the same result for every reply other than [-3, 3] and [-3, -3] |
| ArmControl.SentinelPassesFallback | arm.py:388 | the as-written fallback passes the sentinel, and the corrected one replaces it |
| ArmControl.SpikesInWindow | arm.py:356 | a cell's count in the window is at most its number of spikes |
| ArmControl.SpikesInWindowOne | arm.py:356 | a single spike counts 1 exactly when t - cmdtimewin < spike < t, else 0 |
| ArmControl.SpikesInWindowAppend | arm.py:356 | window counts add up over concatenated spike trains |
| ArmControl.EmptyWindow | arm.py:356 | an empty or negative window counts nothing |
| ArmControl.MotorCount | arm.py:355-356 | a muscle group's count is 0 for an empty window |
| ArmControl.MotorCountIsGroupWindow | arm.py:355-356 | a group's count is the number of its spikes, over all its cells together, that lie inside the window, and so never exceeds its recorded spikes |
| ArmControl.MotorCounts | arm.py:354-358 | one non-negative count per muscle group |
| ArmControl.DriveProgressStep | arm.py:411-427 | handling one more cell keeps the invariant of the drive loop |
| ArmControl.DriveProgressDone | arm.py:411-427 | after all cells, each driven local cell holds its new interval and every other cell is unchanged |
| ArmControl.SetupRanges | arm.py:253-267 | the tuning table has numPcells rows; row c holds [RangeLow(c), RangeLow(c) + width) |
| ArmControl.Arm.constructor | arm.py:217-267 | start angles at rest, zero command, error and critic, no history, trial 0, the gate truncated to an integer, the target of the configured id, and the table filled |
| ArmControl.Arm.Record | arm.py:300 | the error is appended to the history |
| ArmControl.Arm.ResetArm | arm.py:107-116 | trial +1 and the reset time recorded; the dummy arm returns to its start at rest, with no command, error or critic, and its gate moves one trial later; the plant arm is otherwise unchanged |
| ArmControl.Arm.MaybeReset | arm.py:343-348 | after more than testTime since the last reset: trial +1, the reset time recorded, the dummy arm back at its start at rest with no command, error or critic and its gate one trial later (the plant arm's state kept), and the new trial's target, failing when the trial list is short or the id invalid; otherwise none of the fields it may change changes |
| ArmControl.Arm.UpdateMotorCommand | arm.py:352-374 | after the gate the command is the inhibited, normalised spike counts of the window; before it the command is kept |
| ArmControl.Arm.RLCritic | arm.py:134-151 | the stored and returned critic is the critic signal of the current error and history |
| ArmControl.Arm.RunDummyArm | arm.py:86-105 | angles, velocities and hand follow one dummy-arm step under the current command |
| ArmControl.Arm.ApplyPlantReply | arm.py:383-405 | after the fallback a two-value reply becomes the angles, the hand follows by forward kinematics and the velocities are zero; any other length raises and changes nothing |
| ArmControl.Arm.DriveCell | arm.py:411-427 | one cell's local entry gets its interval when the cell is local and its rate non-zero; nothing else changes |
| ArmControl.Arm.ProprioDrive | arm.py:411-427 | every driven local cell holds the interval of its angle and range; every other entry is unchanged |
| ArmControl.Arm.ComputeError | arm.py:431-433 | the error is the hand-target distance while the gate is non-zero, and is unchanged otherwise |
| ArmControl.Arm.Run | arm.py:290-435 | the history grows by the previous error; after a completed step the plant arm's hand follows its angles, every driven cell holds its interval and the error is the hand-target distance; the critic is returned |
| PlantProtocol.Zeros | arminterface.py:290 | n zeros |
| PlantProtocol.ContainsAt | arminterface.py:271 | `sub in s` holds exactly when sub occurs at some position of s |
| PlantProtocol.ReadLine | arminterface.py:265 | the line and the rest make up the buffer; the line is empty only for an empty buffer, has no newline before its end, and ends with one when text remains |
| PlantProtocol.WordEnd | arminterface.py:273 | the first word ends at the first separator |
| PlantProtocol.Words | arminterface.py:273 | str.split gives non-empty words without separators |
| PlantProtocol.WordsOfJoined | arminterface.py:273 | words joined by single separators split back into the same words |
| PlantProtocol.Fields | arminterface.py:273 | the floats of all words, in order, or an error exactly when one word is not a number |
| PlantProtocol.CommandLine | arminterface.py:242-243 | the command line is the reprs of the values joined by ", " with a newline |
| PlantProtocol.LastOf | arminterface.py:279-282 | the last parsed line of the given length, or empty exactly when there is none |
| PlantProtocol.AggregateLengths | arminterface.py:306-332 | the four muscle lengths, or an error exactly when one of them raises |
| PlantProtocol.DefaultBranches | arminterface.py:42 | with branches [3, 1, 1, 1] the lengths are DELT3, PECM1, TRIlong and BIClong |
| PlantProtocol.ClassifyStep | arminterface.py:279-282 | after each line the packets are the last lines of 2 and of 18 fields |
| PlantProtocol.LastOfSnoc | arminterface.py:279-282 | a new line of length n becomes the last of its size; other sizes are unchanged |
| PlantProtocol.ArmInterface.constructor | arminterface.py:180-189 | no packet yet, plant not ready, empty buffer |
| PlantProtocol.ArmInterface.GetPacketLoss | arminterface.py:430-434 | 1 exactly for packet id -1, so 0 for every packet counted |
| PlantProtocol.AfterReadyFirst | arminterface.py:229-237 | the chunks left after the handshake are those after the first chunk holding READY TO RUN; there are none exactly when no chunk holds it |
| PlantProtocol.ArmInterface.Handshake | arminterface.py:229-237 | the plant is ready afterwards exactly when it was or a chunk holds READY TO RUN; the chunks up to and including the first such one are consumed; with no such chunk all are consumed and it stays not ready |
| PlantProtocol.Next | arminterface.py:265-270 | the next line of the buffer, else the first line of the next chunk; the line and the new buffer make up what was read; dry exactly when both are exhausted |
| PlantProtocol.ArmInterface.NextLine | arminterface.py:265-270 | the line, buffer, chunks and dry flag are those of Next |
| PlantProtocol.ReplyPackets | arminterface.py:264-290 | a reply's joint packet is the last 2-field line parsed and its muscle packet the last 18-field line (zeros when none came), unless the budget was spent with no joint packet, when it is the sentinel with zero lengths; the lines parsed extend those held; a stalled loop has read everything and still lacks a packet |
| PlantProtocol.ReplyReadsLine | arminterface.py:264-290 | a turn that reads a parsable line without the end marker, with more to read and no sentinel due, goes on with that line parsed |
| PlantProtocol.ReplyBothHeld | arminterface.py:264 | once both packets are held the loop returns them and reads nothing more |
| PlantProtocol.ReplyJointThenMuscle | arminterface.py:264-290 | a joint line then a muscle line in one chunk give exactly those two packets and leave nothing unread |
| PlantProtocol.JointLineExample | arminterface.py:265-273 | the line "1 2" is read whole and parsed into the joint packet [1, 2] |
| PlantProtocol.JointOnlyStalls | arminterface.py:264-290 | with only a joint line written, the loop waits for the muscle packet, even with the budget spent |
| PlantProtocol.SpentBudgetSentinel | arminterface.py:284-287 | with nothing to read and the budget spent, the sentinel and zero lengths are returned |
| PlantProtocol.EndMarkerEndsReply | arminterface.py:271-290 | the end marker alone returns no joint packet and zero lengths |
| PlantProtocol.ArmInterface.ReadReply | arminterface.py:264-290 | the outcome, the lines parsed and the input left unread are those of Reply on the buffer and chunks before the call |
| PlantProtocol.ArmInterface.SendAndReceive | arminterface.py:196-357 | the packet id grows by one; without a ready plant it stalls with every chunk consumed; after a failed write it fails with nothing written; otherwise it writes the command line and the outcome and the input left unread are those of Reply with the budget spent once packetID >= int(simtime/msecInterval); a reply publishes its joint packet and the lengths of DELT3, PECM1, TRIlong and BIClong; no reply leaves them unchanged |
| MsarmCommon.LowerChar | msarm/MuscleExcitationSetterEventHandler_pipe.cpp:154 | ASCII upper-case letters map to lower case; other characters are unchanged |
| MsarmCommon.ToLower | msarm/MuscleExcitationSetterEventHandler_pipe.cpp:154 | the string lower-cased character by character |
| MsarmCommon.NeedAllSpellings | msarm/MuscleExcitationSetterEventHandler_pipe.cpp:152-158 | the `all` switch is on exactly for "true" in any letter case |
| MsarmCommon.FirstIndex | msarm/MuscleExcitationSetterEventHandler_pipe.cpp:217-222 | the first position holding the name, present exactly when the name occurs |
| MsarmCommon.FirstMatches | msarm/MuscleExcitationSetterEventHandler_pipe.cpp:211-225 | at most one coordinate per token, each named by a token |
| MsarmCommon.FirstMatchesAllKnown | msarm/MuscleExcitationSetterEventHandler_pipe.cpp:211-225 | when every token names a coordinate, one first match per token, in token order |
| MsarmCommon.FirstMatchesNoneKnown | msarm/MuscleExcitationSetterEventHandler_pipe.cpp:211-225 | when no token names a coordinate, nothing is selected |
| MsarmCommon.SelectByName | msarm/MuscleExcitationSetterEventHandler_pipe.cpp:211-225 | the selection loop returns the first matches |
| MsarmCommon.AllIndices | msarm/MuscleExcitationSetterEventHandler_pipe.cpp:171-175 | every entry, in order |
| MsarmCommon.SelectMusclesAsWritten | msarm/MuscleExcitationSetterEventHandler_pipe.cpp:160-170 | one entry per token: the muscle of that name, or null |
| MsarmCommon.UnknownMuscleIsNull | msarm/MuscleExcitationSetterEventHandler_pipe.cpp:167 | an unknown name leaves a null muscle in the list |
| MsarmCommon.SelectMuscles | msarm/MuscleExcitationSetterEventHandler_pipe.cpp:160-170 | the corrected selection succeeds exactly when every token names a muscle, and then gives one muscle of that name per token |
| MsarmCommon.SelectMusclesAgrees | msarm/MuscleExcitationSetterEventHandler_pipe.cpp:160-170 | where every name resolves, the corrected list is the as-written one without nulls |
| MsarmCommon.ResolveMuscles | msarm/MuscleExcitationSetterEventHandler_pipe.cpp:160-170 | the lookup loop fails exactly when a name is unknown, and otherwise returns the corrected selection |
| ExcitationHandler.Split | msarm/MuscleExcitationSetterEventHandler_pipe.cpp:62 | one field more than there are separators, none containing a separator |
| ExcitationHandler.SplitAt | msarm/MuscleExcitationSetterEventHandler_pipe.cpp:62 | a separator splits the text into the fields before it and those after it |
| ExcitationHandler.SplitWhole | msarm/MuscleExcitationSetterEventHandler_pipe.cpp:62 | text without separators is one field |
| ExcitationHandler.Group | msarm/MuscleExcitationSetterEventHandler_pipe.cpp:83-108 | the prefix routing in its order: BIC/BRA to slot 3, then TRI to slot 2, and the other groups below |
| ExcitationHandler.Routed | msarm/MuscleExcitationSetterEventHandler_pipe.cpp:79-109 | each selected muscle with a routed prefix takes its group's command; every other muscle keeps its excitation |
| ExcitationHandler.SameGroupSameValue | msarm/MuscleExcitationSetterEventHandler_pipe.cpp:79-109 | selected muscles of one group receive the same excitation |
| ExcitationHandler.ExcitationSetter.constructor | msarm/MuscleExcitationSetterEventHandler_pipe.cpp:20 | four zero command slots, nothing selected |
| ExcitationHandler.ExcitationSetter.ReadFromXml | msarm/MuscleExcitationSetterEventHandler_pipe.cpp:124-226 | the interval; all muscles or, with the corrected check, one per name (failing on an unknown name, with the muscles and coordinates unchanged); all coordinates or the first matches |
| ExcitationHandler.ExcitationSetter.ParseLine | msarm/MuscleExcitationSetterEventHandler_pipe.cpp:61-66 | field i of the line is parsed into slot i; the other slots are kept |
| ExcitationHandler.ExcitationSetter.RouteExcitations | msarm/MuscleExcitationSetterEventHandler_pipe.cpp:79-109 | the excitations become the routed ones |
| ExcitationHandler.ExcitationSetter.Handle | msarm/MuscleExcitationSetterEventHandler_pipe.cpp:48-113 | nothing changes on a tick that is not due; otherwise the handled time is set, a non-empty line overwrites its slots, an empty one keeps them, and the muscles are routed |
| MuscleStatusHandler.KnownVars | msarm/MuscleStatusEventHandler_pipe.cpp:198-237 | exactly the recognised variable names among the tokens, with multiplicity and in order |
| MuscleStatusHandler.WhitelistVars | msarm/MuscleStatusEventHandler_pipe.cpp:198-237 | the whitelist loop returns the recognised names |
| MuscleStatusHandler.MuscleStatus.constructor | msarm/MuscleStatusEventHandler_pipe.cpp:14-15 | 18 zero length slots, nothing selected |
| MuscleStatusHandler.MuscleStatus.ReadFromXml | msarm/MuscleStatusEventHandler_pipe.cpp:134-262 | the interval; all muscles or, with the corrected check, one per name; all 13 variables or the recognised ones; the PntOutput name, or the subsystem's name with "_status.pnt" when it is empty |
| MuscleStatusHandler.MuscleStatus.StoreLengths | msarm/MuscleStatusEventHandler_pipe.cpp:56-115 | slot m takes the fibre length of the m-th selected muscle; later slots are kept |
| MuscleStatusHandler.MuscleStatus.PrintLengths | msarm/MuscleStatusEventHandler_pipe.cpp:118-121 | all 18 slots are printed, each followed by two spaces, then a newline |
| MuscleStatusHandler.MuscleStatus.Handle | msarm/MuscleStatusEventHandler_pipe.cpp:44-127 | nothing changes on a tick that is not due; otherwise the lengths are stored and printed and the handled time is set |
| CoordinateOutputHandler.Selected | msarm/CoordinateOutputEventHandler_pipe.cpp:52-56 | the values of the selected coordinates, in selection order |
| CoordinateOutputHandler.CoordinateOutput.constructor | msarm/CoordinateOutputEventHandler_pipe.cpp:22 | nothing selected, no file name, nothing printed |
| CoordinateOutputHandler.CoordinateOutput.ReadFromXml | msarm/CoordinateOutputEventHandler_pipe.cpp:78-153 | the interval; all coordinates or the first matches; the PntOutput name, or the body's name with "_coordates_status.pnt" when it is empty |
| CoordinateOutputHandler.CoordinateOutput.Handle | msarm/CoordinateOutputEventHandler_pipe.cpp:44-65 | nothing is printed on a tick that is not due; otherwise one line with a space before each selected value |
| PlantLink.FieldsOfFormatted | arminterface.py:273 | float() reads the printed numbers into the values it makes of each, in order; where printing keeps every digit, these are the numbers printed |
| PlantLink.WordsOfPadded | msarm/MuscleStatusEventHandler_pipe.cpp:118-121 | the status line splits into the printed values, one word each |
| PlantLink.StatusLineIsMusclePacket | msarm/MuscleStatusEventHandler_pipe.cpp:118-121 | every status line is parsed by the controller into an 18-field muscle packet holding the values float() reads from the printed lengths; where printing keeps every digit, the lengths themselves |
| PlantLink.WordsOfSpaced | msarm/CoordinateOutputEventHandler_pipe.cpp:52-57 | the coordinate line splits into the printed values, one word each |
| PlantLink.CoordLineIsJointPacket | msarm/CoordinateOutputEventHandler_pipe.cpp:52-57 | every coordinate line is parsed into the values float() reads from the selected coordinates, a joint packet when two are selected; where printing keeps every digit, the coordinates themselves |
| PlantLink.OneTickReply | msarm/CoordinateOutputEventHandler_pipe.cpp:52-57 | the coordinate line and the status line of one tick, read from one chunk, make the controller's reply loop return exactly the two packets read from them and leave nothing unread, whether or not the budget is spent |
| PlantLink.SplitOfJoined | msarm/MuscleExcitationSetterEventHandler_pipe.cpp:62 | fields joined by single separators split back into those fields |
| PlantLink.CommandFillsSlots | msarm/MuscleExcitationSetterEventHandler_pipe.cpp:57-66 | the controller's command line splits into four fields, and the plant parses them into the four commands |
| PlantLink.FedBackMusclesAreCommanded | arminterface.py:306-332 | the four muscles whose lengths the controller reads back are each routed to a command slot |

## Left out

- Network and process I/O are not modelled: UDP sockets, the client handshake, `select`, `os.read`, the subprocess pipe and its timeouts, and standard input and output of the plant. Pipe contents and printed text are sequences of strings.
- The multiprocessing `Manager` queue, the lock, the queue's `qsize` race and the simulation callback's side are not modelled. The queue is a sequence and the simulation time a field.
- NEURON, numpy, `pc.allreduce` and `pc.broadcast` are not modelled. The step is modelled on the worker that talks to the arm, and cells and spike vectors are sequences.
- Trigonometry, square root, `float`, `repr`, `atof` and stream formatting of doubles are function parameters. Floating-point rounding is not modelled: numbers are reals.
- The parsing of binary messages, the XML tokenizer and XML file editing are not modelled.
- These are not modelled:
  - the body and subsystem lookups and their CL_ERR/CHK_ERR failures, other than the muscle lookup;
  - opening the output files;
  - the verbose printing and timing code.
- The random and exploratory movements, the `randomOutput` arm type and `setPMdInput` are not modelled, because they depend on randomness or plotting. Plotting and saving are left out too.
- The muscle status handler's `data` vector is filled per variable but never output, so it is not modelled; the variable names it is keyed by are.
- `muscleLengths` is a global array in the plant; the model makes it a field of the handler.
- `needHandle` is the parameter `due`. The period arithmetic of the event base class is not part of this model.
- SpikeReorder.SortByTs: numpy's default argsort is not stable, while the model's sort is. The contracts fix the multiset and the order by timestamp, not the order among equal timestamps.
- SyncFilter.SyncWindowFilter.FilterWindows requires the last row to be no older than the open window. Without it the source's window search never ends.
- ExcitationHandler.ExcitationSetter.Handle requires a line of at most four fields. The source writes past its four-slot array otherwise.
- MuscleStatusHandler.MuscleStatus.Handle requires at most 18 selected muscles. The source writes past its 18 slots otherwise.
- LatencyQueue.DeliveryQueue.Feed requires a well-formed item, of the DP or NSLOC layout. The source reads any list at those positions.
- PlantProtocol.ArmInterface.SendAndReceive requires a non-zero interval. For 0 the source raises ZeroDivisionError once the packet-budget comparison is evaluated.
- PlantProtocol.ArmInterface.SendAndReceive: a failed write is modelled as a failure (`Failed`). The handler at arminterface.py:247-250 itself raises, because it is reached before `numJoints` is assigned.
- ArmControl.Arm.Run: the full new state of a step is stated by the step methods it calls. Run's own contract states the history, the arm and error after a completed step, and the critic returned. The critic update (RLcritic) is a separate call in the source, and so in the model.
- ArmControl.Arm.constructor requires a target id from 0 to 3. For another id, setTargetByID (arm.py:61-71) leaves `targetPos` unassigned and setup raises at arm.py:237.
- ArmControl.Arm.constructor requires a valid configuration: a positive step, an even number of proprioceptive cells other than 2, and a positive cmdmaxrate. Otherwise the source divides by zero or indexes past the tuning table.
- NslocChunks.NslocServer.Send sets the end timestamp by the corrected rule (ChunkEndTs). When no spike is packed, the source's `spk[-1]` at server.py:1165 stores the previous serial number instead; ChunkEndTsAsWritten models that.
- NslocChunks.NslocServer.Advance uses the corrected end timestamp through Send, not server.py:1165's `spk[-1]` for an empty chunk.
- NslocChunks.NslocServer.Step uses the corrected end timestamp through Send and Advance, and so carries it into the next timeout item.
- NslocChunks.NslocServer.PackMessage ensures the corrected end timestamp: the last valid row's timestamp, or the previous value when the message packs none. The source differs when the last row is not a valid spike and no spike is pending.
- NslocChunks.NslocServer.OnMessage ensures the corrected end timestamp, as PackMessage does.
- NslocChunks.ProgressStep: the packing invariant it preserves uses the corrected end-timestamp rule.
- ArmControl.Arm.ApplyPlantReply runs the corrected fallback (PlantFallback), and so does Run through it. The source at arm.py:388 compares with `[-3, 3]`: it moves both joints to -3 rad on the budget sentinel and keeps the angles on a reply of `[-3, 3]`. PlantFallbackAsWritten models that, and FallbacksAgree shows that the two rules differ on no other reply.
- ExcitationHandler.ExcitationSetter.ReadFromXml fails on an unknown muscle name (the corrected check). The source at MuscleExcitationSetterEventHandler_pipe.cpp:167-168 pushes a null muscle instead; SelectMusclesAsWritten models that.
- MuscleStatusHandler.MuscleStatus.ReadFromXml fails on an unknown muscle name (the corrected check). The source at MuscleStatusEventHandler_pipe.cpp:177 pushes a null muscle instead.
- PlantLink.FieldsOfFormatted, PlantLink.StatusLineIsMusclePacket, PlantLink.CoordLineIsJointPacket and PlantLink.OneTickReply give the printed values exactly only where printing keeps every digit (ReadsBack). The handlers print doubles with the default stream precision of 6 significant digits, so in general the controller receives the values float() reads from that text.
- Python 2 integer semantics are not modelled. The controller's `int()` truncation is modelled (Truncate).
- SpikeRows.Row: the source holds every field of a decoded row as a numpy float. The model keeps the kind, channel and unit as integers and only the timestamp as a real. The float-to-int conversion of the channel and unit (server.py:1149-1150) is left out together with the binary decoding, and so is the float comparison of the kind with 1.

## Findings

| source | as written | input that shows it | evidently intended | confidence | as-written member | corrected member |
|---|---|---|---|---|---|---|
| server.py:1165 | `lastEndTS = spk[(dataHave - 1) * 3 + 2]` also runs when no spike was packed | a message whose last row is not a valid spike, arriving right after a full chunk was sent: dataHave is 0, so `spk[-1]`, the previous serial number, becomes lastEndTS | keep the previous end timestamp when the chunk is empty | not executed; high | NslocChunks.ChunkEndTsAsWritten, NslocChunks.EmptyChunkEndIsSerial | NslocChunks.ChunkEndTs, NslocChunks.ChunkEndTsOfChunk |
| arm.py:388 | the fallback compares the reply with `[-3, 3]` | the budget sentinel `[-3, -3]` (arminterface.py:285) passes the check and sets both joints to -3 rad | compare with `[-3, -3]` | not executed; high | ArmControl.PlantFallbackAsWritten, ArmControl.SentinelPassesFallback | ArmControl.PlantFallback |
| msarm/MuscleExcitationSetterEventHandler_pipe.cpp:167 | `if(!msl) CHK_ERR(tmpNode, ...)` tests the XML node, not the lookup (the same at MuscleStatusEventHandler_pipe.cpp:177) | a muscle name the subsystem lacks: the node is present, so a null muscle is pushed and later dereferenced by handle | fail configuration when the lookup fails | not executed; medium, because CHK_ERR's definition is not part of this model | MsarmCommon.SelectMusclesAsWritten, MsarmCommon.UnknownMuscleIsNull | MsarmCommon.SelectMuscles, MsarmCommon.ResolveMuscles |
