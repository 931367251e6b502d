# OCAP2 Web: a verified model of its recording, playback and map logic

OCAP2 Web turns recordings of Arma 3 missions into fixed-size chunks of frames, plays them back in a browser
through a small asynchronous chunk cache, draws briefing markers on the map, and builds map tiles, contour lines
included, from elevation grids. This project models the parts of it whose correctness is not visible in any one
function body and proves what they promise, over every input, every run or every interleaving.

| file | models | main results |
|---|---|---|
| `Common.dfy` | optional and fallible values, `uint32` | wrap-around on sums |
| `ContourChaining.dfy` | `chainSegments` | polylines are edge-disjoint maximal walks using every segment once, within 2 mm; open ends are exactly the keys of odd degree |
| `MarchingSquares.dfy` | `marchingSquares` | exactly the segments of the cells, one end per straddling edge and adjacent cell, at one point of that edge, measured from the grid's origin; contours are closed or end at border crossings |
| `RecordingParser.dfy` | position expansion in Go and in the legacy browser path | the two agree exactly if every entry is in place; when the expansion loop ends |
| `ChunkBucket.dfy` | temporary files of length-prefixed records | any interleaving of writes and flushes reads back; a cut file is an error unless cut at a record boundary |
| `ChunkConverter.dfy` | streaming converter, whole-recording writer, chunk decoder | chunks partition the recording exactly if the sizes are representable; streaming equals the simple writer exactly if frames are distinct; lookup finds the last emitted state |
| `ChunkManager.dfy` | chunk cache | well-formed LRU order, bounded size, eviction terminates, one fetch per chunk unless cleared with requests in flight, loaded chunks equal their files |
| `PlaybackEngine.dfy` | playback engine on the cache | in every interleaving the screen shows the current frame and never another, time is kept, one callback is pending iff playing; after every task the screen is complete unless the frame's chunk is under way or could not be had; an opened recording plays the converter's output; both paths show the same |
| `MarkerManager.dfy` | incremental marker renderer | no leaked handle after any operations; an update agrees with redrawing from scratch; exactly which markers are on the map, and where |
| `Pipeline.dfy`, `JobManager.dfy` | import pipeline, job queue | done iff every stage passes, in every interleaving; exactly when a cancellation takes effect, and stopping; queue order, one running job, final statuses are final; every job can be settled |
| `RenderOrchestrator.dfy` | batch rendering and the publish lock | bounded concurrency, no deadlock, one result per input and exactly which, one publication per world, no interference between directories, no replacement without force and under force no loss without a reported failure |
| `StreamingJson.dfy` | single-pass JSON reading over tokens | each callback gets exactly the elements under its key; skipping stops at the matching bracket; callbacks do not affect metadata; the closing brace is never looked at |
| `JsonNumber.dfy`, `JsonText.dfy` | JSON text and its numbers (RFC 8259, sections 2 to 7), cut off anywhere | exactly which texts are numbers, and their values; exactly which cuts of a recording's text go unnoticed, and what is read then |
| `ElevationGrid.dfy` | ASC grid filling, terrain-RGB encoding | field k lands in its cell however lines are split; decoding is within 0.1 m exactly for heights that fit |
| `SystemTime.dfy` | interpolated system time | the search finds the last sample; time runs forward exactly if the samples do |
| `OperationStats.dfy` | operation statistics | players, units, kills and deaths are what the manifest says, and sum up |

Code that changes things in place is modelled by classes and methods whose contracts tie the new state to the old
one; the functions in those contracts then get lemmas. Concurrent goroutines and callers are state machines whose
steps may come in any order (`JobManager`, `RenderOrchestrator`). The asynchronous browser code is cut at its
suspension points: every method of `Cache` and `Engine` is one uninterrupted piece. `Engine.Run` plays any schedule of
the pieces, `Engine.RunTasks` any schedule of the browser's tasks, each a piece and what it resumes.

Frame numbers and chunk arithmetic are `uint32` with wrap-around written out. Coordinates, heights and times are
reals.

## Where the code differs from what one would expect

- Saddle cells (`internal/maptool/contour.go:145-153`): only the saddle with high south-west and north-east corners
  consults the average. In the other one both branches pair the same sides. `SaddleResolution` gives the exact
  condition under which the average decides, `UnresolvedSaddle` a grid where it should and does not. With a high average
  its segments also run against the direction of all others, which keep the high ground on their left:
  `SaddleRunsBackwards`.
- Chunk arithmetic (`internal/storage/streaming_converter.go:233-234`): adding the chunk size can wrap around, and
  then frames beyond the first chunk are lost. `PartitionsExactly` gives the exact condition.
- Range expansion (`internal/storage/parser_v1.go:548`): a range that ends at the largest `uint32` never ends the
  loop. `ExpansionTerminates` gives the exact condition.
- Duplicate frames: with two positions of one entity at one frame, the streaming converter keeps both and the
  whole-recording writer the first. `StreamingEqualsWhole` shows that nothing else can make them differ.
- `findPositionIndex` (`ui/src/playback/markerManager.ts:145-148`) reads before the start of the array, and so
  throws, if the marker is active before its first keyframe.
- `CancelJob` (`internal/maptool/jobmanager.go:236-247`) reports success for a job that still waits in the queue, but
  its cancel function is not set yet and the call has no effect. `CancelWorksExactlyUnderWay` gives the exact
  condition, `CancelledButDone` a run.
- The first data line of an ASC grid is dropped silently if it does not start with a float64, that is with a word or
  a number like `1e400` (`internal/maptool/dem.go:130-141`), and all later values shift: `AllLinesReadExactly`,
  `DroppedLineShifts`.
- A recording that is cut off after its opening brace, or after a complete member and before the comma that follows
  it, is read without an error; and so is one cut inside a number that is the value of a key of its own, if what is
  left is a number: 1500 frames become 15 (`internal/storage/streaming_json_reader.go:96-127`). `CutDocument` gives
  the exact condition, `FifteenFrames` an input.
- The closing brace of a recording is never read: `{` followed by `]` is a recording without members
  (`internal/storage/streaming_json_reader.go:96-161`): `ClosingIgnored`.
- With `--force`, a directory whose replacement fails between removal and renaming is lost
  (`internal/maptoolcli/render.go:73-85`): `LostOnlyByFailure`, `ExistingCanBeLost`.

## Model

| member | source | states |
|---|---|---|
| ContourChaining.BuildAdjacency | internal/maptool/contour.go:181-189 | the adjacency map lists under every key exactly the segments with an end there |
| ContourChaining.SameKeySameCell | internal/maptool/contour.go:175-179 | two points have the same key if and only if they lie in one millimetre cell, both coordinates truncated towards zero |
| ContourChaining.ExtendForward | internal/maptool/contour.go:201-222 | extension terminates, keeps the given line in front, claims exactly the segments it adds as consecutive steps, and leaves no unclaimed segment at the final key |
| ContourChaining.ExtendBackward | internal/maptool/contour.go:224-247 | the same at the front of the line, keeping the given line at the end |
| ContourChaining.TracesStaysNear | internal/maptool/contour.go:175-222 | a polyline that follows segments by key stays within 2 mm of their ends |
| ContourChaining.ChainSegments | internal/maptool/contour.go:170-253 | every segment is walked once, as a consecutive step of exactly one polyline; at each step one of the two points is the segment's own and the other is within 2 mm of its other end, in x and in y; every polyline runs along one of its segments from its first point to its second; no later polyline comes into a millimetre cell where an earlier one ends |
| ContourChaining.WalkParity | internal/maptool/contour.go:199-247 | along a walk, segment ends at a key pair up except at the two ends of the polyline |
| ContourChaining.SeparatedEnds | internal/maptool/contour.go:193-250 | at most one open polyline ends at any key |
| ContourChaining.OpenEndsAreOddKeys | internal/maptool/contour.go:170-253 | the number of open polylines ending at a key is the parity of the number of segment ends there: one at every odd key, none elsewhere |
| MarchingSquares.CrossingLiesOnEdge | internal/maptool/contour.go:106-117 | the crossing point lies on its lattice edge, measured from the grid's origin in cells, at the fraction where the height interpolated between the edge's two heights is the level |
| MarchingSquares.EdgeHeights | internal/maptool/contour.go:78-95 | an edge is crossed if and only if exactly one of its two heights in the file reaches the level |
| MarchingSquares.CaseTable | internal/maptool/contour.go:119-163 | for all sixteen cases and both saddle outcomes, a side is touched once if its corners differ and never otherwise |
| MarchingSquares.SaddleResolution | internal/maptool/contour.go:128-153 | a saddle cell is resolved by its average if and only if it is not the case-10 saddle with a high average |
| MarchingSquares.SaddlePairs | internal/maptool/contour.go:128-153 | how a saddle is resolved: by its four heights, and in case 5 by whether they average at least the level |
| MarchingSquares.HighGroundOnLeft | internal/maptool/contour.go:119-163 | outside saddles every segment has the high corners of its cell on its left and the low ones on its right |
| MarchingSquares.SaddleRunsBackwards | internal/maptool/contour.go:128-153 | in a saddle a segment has the corner that it cuts off on its left if and only if that is high, except exactly in the case-10 saddle with a high average |
| MarchingSquares.UnresolvedSaddle | internal/maptool/contour.go:145-153 | a grid whose cell has a high centre and has its high corners cut off all the same |
| MarchingSquares.CellUsesStraddlingSides | internal/maptool/contour.go:72-164 | a cell's segments end once on each of its sides that straddles the level, and on no other lattice edge |
| MarchingSquares.TraceCell | internal/maptool/contour.go:77-163 | a cell's segments run between the crossing points of their edges, the same point whichever adjacent cell computes it |
| MarchingSquares.CollectSegments | internal/maptool/contour.go:71-164 | the segments are exactly those of the cells, row by row and cell by cell, each between the crossing points of its two edges; every straddling edge carries one end per adjacent cell and no other edge any |
| MarchingSquares.EdgesCounted | internal/maptool/contour.go:71-164 | over the whole scan an edge carries an end for each adjacent cell if it straddles the level, and none otherwise |
| MarchingSquares.EveryCrossingIsLocal | internal/maptool/contour.go:74-163 | every segment joins two sides of one cell: no contour jumps between cells |
| MarchingSquares.BorderIsRim | internal/maptool/contour.go:74-75 | inner edges have two adjacent cells; the edges with one are exactly those on the rim |
| MarchingSquares.DegreeParity | internal/maptool/contour.go:71-166 | the number of segment ends at a key has the parity of the border crossings there |
| MarchingSquares.TraceContours | internal/maptool/contour.go:71-166 | the contours decompose exactly the segments of the cells, each of which stays within its cell, and keep within 2 mm of them; the number of open contours ending at a key is the parity of the border crossings with that key, and at most one ends in a millimetre cell |
| MarchingSquares.OpenContourEndsAtBorder | internal/maptool/contour.go:71-166 | an open contour ends in two different millimetre cells, and one of them holds the crossing of an edge on the rim |
| RecordingParser.ExpansionTerminates | internal/storage/parser_v1.go:548-556 | the expansion loop ends if and only if the range ends below the largest uint32 |
| RecordingParser.CollectEntityPositions | internal/storage/parser_v1.go:468-567 | malformed entries are skipped, vehicle ranges become one position per frame, any other entry takes the frame of its index |
| RecordingParser.LegacyExpand | ui/src/data/decoders/jsonDecoder.ts:177-205 | one state per frame: ranges repeated over their width, other entries, short ones included, once; it throws exactly if it can make no state of an entry |
| RecordingParser.ExpansionsAgree | internal/storage/parser_v1.go:468-567 | the Go expansion is the legacy one placed at consecutive frames from the start frame if and only if every entry starts where those before it leave off |
| RecordingParser.ExpansionsAgreeExactly | internal/storage/parser_v1.go:479-483 | with entries that the Go parser skips, the two are the same timeline if and only if there are none and all are in place |
| RecordingParser.DenseIsAligned | internal/storage/parser_v1.go:561-563 | dense entries are always in place |
| RecordingParser.ContiguousIsAligned | internal/storage/parser_v1.go:542-558 | contiguous ranges from the start frame are always in place, and end at the last range's end |
| RecordingParser.EndFramesAgree | internal/storage/parser_v1.go:119-133 | for entries in place, the exact condition on the last entry under which both paths give the same end frame, for every kind of entity |
| RecordingParser.LookupsAgree | ui/src/data/decoders/jsonDecoder.ts:183-203 | at every frame, indexing the legacy states by frame minus start frame selects what the Go expansion recorded last for that frame |
| ChunkBucket.LittleEndianRoundTrip | internal/storage/chunk_bucket.go:55-56 | the length prefix decodes to the length |
| ChunkBucket.PrefixBytes | internal/storage/chunk_bucket.go:55-56 | the length prefix is four bytes, the lowest first |
| ChunkBucket.ReadBack | internal/storage/chunk_bucket.go:38-39 | reading the framed records gives exactly the records, in order |
| ChunkBucket.ReadTruncated | internal/storage/chunk_bucket.go:105-127 | a file cut at a record boundary reads as the records before it; cut anywhere else it is an error |
| ChunkBucket.Bucket.Write | internal/storage/chunk_bucket.go:40-67 | the record joins those of its chunk, no other chunk changes, and disk and buffer together still hold exactly the records, wherever the buffer spills |
| ChunkBucket.Bucket.Flush | internal/storage/chunk_bucket.go:70-88 | no writer stays open and no record is lost |
| ChunkBucket.Bucket.Read | internal/storage/chunk_bucket.go:91-130 | the chunk's file is decoded; with nothing buffered that is exactly the records written to it, and none for a chunk never written |
| ChunkBucket.ReadRecords | internal/storage/chunk_bucket.go:102-129 | the reading loop computes the decoding of the whole file, with its short-read and bad-message errors |
| ChunkConverter.PartitionsExactly | internal/storage/streaming_converter.go:233-290 | the chunk ranges partition [0, endFrame], each frame in chunk frame / chunkSize, if and only if the sizes are representable |
| ChunkConverter.FrameInItsChunk | internal/storage/streaming_converter.go:119-119 | a frame within a chunk's range was bucketed under that chunk, even when the sizes wrap |
| ChunkConverter.BucketHoldsFrame | internal/storage/streaming_converter.go:116-139 | the bucket of a frame's chunk holds all the frame's states, in the order they were emitted |
| ChunkConverter.GroupByFrame | internal/storage/streaming_converter.go:292-296 | the frame map holds under each frame exactly its states, in order |
| ChunkConverter.AssembleChunk | internal/storage/streaming_converter.go:280-316 | a chunk covers exactly its range of frames, and each holds exactly its states in order with the frame number cleared |
| ChunkConverter.Converter.BucketRecording | internal/storage/streaming_converter.go:116-140 | after the pass each bucket holds exactly the emitted states of its chunk, in order |
| ChunkConverter.Converter.Convert | internal/storage/streaming_converter.go:34-277 | it fails exactly on missing world name, mission name or end frame; otherwise there is one chunk per index and every frame in it holds exactly the states the parser emitted for it |
| ChunkConverter.GetEntityStateAtFrame | internal/storage/writer_protobuf_v1.go:251-273 | the search finds the first position recorded for the frame |
| ChunkConverter.BuildChunk | internal/storage/writer_protobuf_v1.go:216-248 | the simple writer's chunk covers its range, each frame with at most one state per entity, in entity order |
| ChunkConverter.FrameAgrees | internal/storage/writer_protobuf_v1.go:231-245 | at a frame the two writers agree exactly if they keep equally many states of every entity |
| ChunkConverter.StreamingEqualsWhole | internal/storage/streaming_converter.go:280-316 | at every frame of the recording the streaming path keeps the states that the whole-recording writer keeps, in the same order, if and only if no entity records a frame of the recording twice |
| ChunkConverter.WriteChunks | internal/storage/writer_protobuf_v1.go:47-76 | the simple writer writes one chunk per index, each as `BuildChunk` makes it |
| ChunkConverter.WritersAgree | internal/storage/streaming_converter.go:233-316 | the chunks of `Convert` equal those of the whole-recording writer, index by index, if no entity records a frame of the recording twice, and for representable sizes only then |
| ChunkConverter.DecodeChunk | ui/src/data/decoders/protobufDecoder.ts:258-275 | each slot of an entity's array holds the entity's last state in that frame, or nothing |
| ChunkConverter.LookupFindsLastEmitted | ui/src/playback/engine.ts:447-463 | for every frame of a representable recording, chunk frame / chunkSize and slot frame mod chunkSize hold exactly the last state the parser emitted for the entity at the frame, or nothing if none was |
| ChunkConverter.EmittedAreRecorded | internal/storage/streaming_converter.go:116-140 | for an entity with its own id, the last state emitted at a frame is the last one its expansion records there |
| ChunkManager.Cache.Clear | ui/src/data/chunkManager.ts:125-132 | everything is dropped; the promise of one fetch per chunk survives if and only if no request was in flight |
| ChunkManager.Cache.UpdateAccessOrder | ui/src/data/chunkManager.ts:172-178 | the order stays duplicate-free by last access, with the chunk as its latest |
| ChunkManager.OrderNotEmpty | ui/src/data/chunkManager.ts:159-160 | the eviction loop never finds the access order empty while the cache is full, so it ends |
| ChunkManager.Cache.LoadManifest | ui/src/data/chunkManager.ts:64-70 | the manifest is kept; an empty cache stays right about the new files |
| ChunkManager.Cache.MakeRoom | ui/src/data/chunkManager.ts:157-165 | the loop terminates with fewer than three chunks; every evicted chunk was last accessed before every chunk that stays |
| ChunkManager.Cache.StoreInMemory | ui/src/data/chunkManager.ts:157-170 | the cache stays well-formed; a full cache loses exactly its least recently used chunk and gains the new one |
| ChunkManager.Cache.LoadChunk | ui/src/data/chunkManager.ts:75-90 | a hit is an access; otherwise a fetch is issued exactly if none is under way, so each chunk has at most one |
| ChunkManager.Cache.ChunkArrived | ui/src/data/chunkManager.ts:148-155 | the answered chunk is loaded, each loaded chunk equals its decoded file, and the order lists exactly the loaded chunks |
| ChunkManager.Cache.CheckPrefetch | ui/src/data/chunkManager.ts:180-205 | exactly from four fifths of a chunk on whose successor exists and is neither loaded nor requested, the successor is requested |
| ChunkManager.Cache.ChunkForFrame | ui/src/data/chunkManager.ts:116-120 | the frame's chunk if and only if it is loaded |
| PlaybackEngine.Engine.ComputeSnapshots | ui/src/playback/engine.ts:439-510 | the screen shows exactly the living entities with a state, from the loaded chunk if it has one, else from the entity |
| PlaybackEngine.Engine.Play | ui/src/playback/engine.ts:206-212 | playback starts unless at the end, with an empty accumulator and one pending callback |
| PlaybackEngine.Engine.Pause | ui/src/playback/engine.ts:214-218 | playback stops and no callback is pending |
| PlaybackEngine.Engine.SetSpeed | ui/src/playback/engine.ts:247-255 | the speed is clamped to [1, 60] and a running loop is restarted |
| PlaybackEngine.Engine.SeekTo | ui/src/playback/engine.ts:228-244 | the frame is clamped to the recording, the screen shows it from what is in memory, and its chunk is in memory, which counts as an access, or requested; the cache keeps its chunks |
| PlaybackEngine.Engine.SeekResolved | ui/src/playback/engine.ts:238-243 | if the frame is still current the screen is recomputed from what is in memory, otherwise it stays |
| PlaybackEngine.TakeWholeFrames | ui/src/playback/engine.ts:379-388 | taking the whole frames off the accumulator leaves less than one interval and conserves kept time |
| PlaybackEngine.Engine.TakeTime | ui/src/playback/engine.ts:370-388 | kept time equals the accumulator plus the interval times frames due; the accumulator stays in [0, interval); gaps over 100 ms are discarded |
| PlaybackEngine.Engine.TimeKeptMeans | ui/src/playback/engine.ts:370-390 | while playing, kept time less the accumulator, times the speed, is the frames due times the capture delay, and less than one frame's time is accumulated |
| PlaybackEngine.Engine.OnFrame | ui/src/playback/engine.ts:367-435 | the frame advances by exactly the frames due, up to the end, never back, and the chunk of a new frame is in memory, which counts as an access, or requested; gaps over 100 ms are discarded; playback goes on exactly if no frame was due or the end is not reached |
| PlaybackEngine.Engine.ChunkArrived | ui/src/playback/engine.ts:299-310 | when the current frame's chunk arrives the screen shows its file's data; any other leaves the screen as it is |
| PlaybackEngine.Engine.EnsureResolved | ui/src/data/chunkManager.ts:106-111 | late in a chunk the next one, if there is one, is in memory or requested, unless it is marked as being prefetched with no request under way; the current screen stays complete |
| PlaybackEngine.Engine.Run | ui/src/playback/engine.ts:206-435 | after every interleaving of ticks, seeks, speed changes, arrivals, failures, evictions and prefetches: the screen shows the current frame, from its chunk if that is in memory and never another frame; one callback is pending iff playing; time is kept; the cache is well-formed |
| PlaybackEngine.Engine.RunCommand | ui/src/playback/engine.ts:206-435 | each command has its effect on frame, speed, clock and playing, and no other; after any that changes the frame, the frame's chunk is in memory or requested |
| PlaybackEngine.Engine.RunTask | ui/src/playback/engine.ts:206-310 | one task of the browser: a command has its effect, an answer stores its chunk or is a failure if it concerns the current frame, and after all that resumes, playback that was late in a chunk has the next one in memory or requested |
| PlaybackEngine.Engine.RunTasks | ui/src/playback/engine.ts:228-310 | after any schedule of the browser's tasks, each with all that it resumes, the screen shows the current frame as its chunk's file has it, unless that chunk is under way or the last request for it failed; and none failed unless an answer was an error or no chunk |
| PlaybackEngine.LoadRecording | ui/src/pages/recording-playback/loadRecording.ts:35-41 | opening a converted recording succeeds iff its first chunk can be read, and then frame 0 of that chunk is on screen in a valid, complete, paused engine with the given entities, end frame and capture delay, at speed 10 |
| PlaybackEngine.OpenAndPlay | ui/src/pages/recording-playback/RecordingPlayback.tsx:147-166 | a recording served from the converter's output is opened, sought to its focus start, if any, and played: that frame, or the end if it is later, is the current one, and it plays exactly if the end is not reached |
| PlaybackEngine.Engine.ShownIsLastEmitted | ui/src/playback/engine.ts:447-463 | end to end: what is on screen for a living entity is the last state the parser emitted for it at the current frame, whenever the chunk is in memory and after every task unless it is under way or failed |
| PlaybackEngine.Engine.NothingWrongIsShown | ui/src/playback/engine.ts:228-245 | at any moment, with chunks in flight or evicted, a state on screen is the last one the parser emitted for that entity at the current frame |
| PlaybackEngine.Engine.LegacyShowsLastRecorded | ui/src/playback/engine.ts:453-510 | a legacy recording shows what the Go expansion of the same entries records last for the current frame |
| PlaybackEngine.BothPathsShowTheSame | ui/src/playback/engine.ts:453-510 | a recording played from converted chunks and the same played from its JSON show the same state of an entity with its own id and aligned entries, at every frame except exactly between the end frames the two paths give it |
| MarkerManager.FindPositionIndex | ui/src/playback/markerManager.ts:120-159 | for sorted keyframes it finds the last one at or before the frame, and throws exactly if an active marker has none; it always terminates |
| MarkerManager.Manager.Draw | ui/src/playback/markerManager.ts:407-476 | the marker is drawn as of its keyframe, recreated if the keyframe overrides its style, and no handle leaks |
| MarkerManager.Manager.UpdateMarker | ui/src/playback/markerManager.ts:374-486 | afterwards a handle exists iff the marker is active, not blacklisted and passes the side filter, and it shows the fresh computation |
| MarkerManager.Manager.UpdateFrame | ui/src/playback/markerManager.ts:373-488 | for sorted keyframes the update completes if and only if no marker is active before its first keyframe, and then every marker is up to date, which `OnMapExactly` and `ShownExactly` spell out; otherwise an exception leaves all handles accounted for |
| MarkerManager.Manager.DrawnIsFresh | ui/src/playback/markerManager.ts:373-488 | right after an update the renderer draws each visible marker as computed afresh at the frame, with the style in force |
| MarkerManager.Manager.OnMapExactly | ui/src/playback/markerManager.ts:373-402 | right after an update a marker is on the map if and only if it has keyframes, the frame is within its lifetime, its player is none or not blacklisted, and its side is the one filtered for or global |
| MarkerManager.Manager.ShownExactly | ui/src/playback/markerManager.ts:416-476 | field by field: a marker that stands still has position, direction, alpha and points of its last keyframe at or before the frame, and the style that keyframe sets; each field of a projectile with a next keyframe is on the line between the two |
| MarkerManager.MovesBetweenKeyframes | ui/src/playback/markerManager.ts:405-424 | a moving marker starts out from each keyframe and arrives at the next |
| MarkerManager.ParsedOnWay | ui/src/playback/markerManager.ts:416-424 | between two keyframes position, direction and alpha have changed in proportion to the frames passed |
| MarkerManager.OutsideKeyframes | ui/src/playback/markerManager.ts:421-423 | outside the frames of its two keyframes the marker is at the nearer one, and at the next one if that is not later |
| MarkerManager.Manager.SetSideFilter | ui/src/playback/markerManager.ts:282-295 | exactly the markers that fail a changed filter lose their handles |
| MarkerManager.Manager.SetBlacklist | ui/src/playback/markerManager.ts:306-317 | exactly the markers of blacklisted players lose their handles |
| MarkerManager.Manager.Clear | ui/src/playback/markerManager.ts:492-499 | the renderer holds nothing afterwards |
| MarkerManager.Manager.LoadMarkers | ui/src/playback/markerManager.ts:341-368 | old markers are cleared, and each drawable definition gets a marker without a handle, in its own style and in order |
| MarkerManager.DrawableExactly | ui/src/playback/markerManager.ts:350-354 | a definition is drawn unless its type contains zoneTrigger, or contains Empty and it has no text |
| MarkerManager.DrawableInOrder | ui/src/playback/markerManager.ts:348-367 | and definitions keep their order |
| MarkerManager.Manager.Run | ui/src/playback/markerManager.ts:282-499 | after any sequence of operations the live handles are exactly those the markers hold, each showing what was last sent for it |
| Pipeline.Run | internal/maptool/pipeline.go:187-229 | done iff every stage ran and no required one failed and no cancellation was seen; otherwise it stops at the first such event and runs nothing after it |
| Pipeline.EndsOneWay | internal/maptool/pipeline.go:187-229 | what happens at the stages leaves one status and one number of stages run |
| JobManager.InvariantStep | internal/maptool/jobmanager.go:108-340 | every step of submitters, worker and cancellers keeps queue order, start order, statuses and causes of cancellation consistent |
| JobManager.AtMostOneRunning | internal/maptool/jobmanager.go:108-122 | in every reachable state at most one job is running |
| JobManager.JobsStartInQueueOrder | internal/maptool/jobmanager.go:114-121 | jobs leave the queue in the order they entered it, each once, and begin in that order |
| JobManager.CancelledOnlyOnceTaken | internal/maptool/jobmanager.go:228-256 | a job that ended cancelled was asked to stop after the worker had set its cancel function, or the manager was stopped |
| JobManager.CancelAnswersExactly | internal/maptool/jobmanager.go:228-248 | `CancelJob` finds no job iff none was submitted under the id; otherwise it answers for the latest, with success iff that is pending or running |
| JobManager.CancelWorksExactlyUnderWay | internal/maptool/jobmanager.go:227-256 | in every reachable state `CancelJob` reports success for a pending or running job, and makes its context done if and only if the worker has set its cancel function |
| JobManager.CancelOfWaitingJobIsLost | internal/maptool/jobmanager.go:236-247 | cancelling a job that the worker has not got to reports success and changes nothing |
| JobManager.CancelledButDone | internal/maptool/jobmanager.go:236-247 | a run in which a waiting job is cancelled with success and still ends done |
| JobManager.PipelineJobEnds | internal/maptool/pipeline.go:187-229 | in every interleaving a pipeline job that began is done iff all stages ran, no required one failed and its context was done at no boundary; cancelled iff it was done at the last boundary reached; failed iff the last stage run was required and failed; nothing runs after either |
| JobManager.EndsAsPipeline | internal/maptool/pipeline.go:187-229 | in every interleaving a pipeline job ends with the status and after the number of stages that `Pipeline.Run` has on the same turns |
| JobManager.CustomJobEnds | internal/maptool/jobmanager.go:258-274 | a custom job is done iff its function returned no error, and cancelled iff it returned one with its context done |
| JobManager.CancelledInTimeIsNeverDone | internal/maptool/pipeline.go:195-199 | a pipeline job whose context is done with a boundary still before it never ends done, whatever happens then, unless it has no stages |
| JobManager.StopReachesAll | internal/maptool/jobmanager.go:108-132 | stopping the manager makes the context of every job done for good, also of those submitted later |
| JobManager.StoppedInTimeIsNeverDone | internal/maptool/jobmanager.go:125-132 | a pipeline job with a boundary before it when the manager is stopped never ends done, unless it has no stages |
| JobManager.LeavesOnlyWhenStopped | internal/maptool/jobmanager.go:114-121 | the worker leaves its loop only once the manager is stopped |
| JobManager.QueueHolds100 | internal/maptool/jobmanager.go:79-88 | a send goes through exactly while the queue holds fewer than 100 jobs, and else waits |
| JobManager.StepMoves | internal/maptool/jobmanager.go:250-340 | a step moves a status only from pending to running or failed, or from running to a terminal one |
| JobManager.StatusOnlyAdvances | internal/maptool/jobmanager.go:250-340 | along every run a terminal status never changes and a job never becomes pending again |
| JobManager.NeverStuck | internal/maptool/jobmanager.go:114-121 | until every job is settled, some submitter's send or worker's step is possible, unless the worker has left its loop |
| JobManager.StepLowersLeft | internal/maptool/jobmanager.go:108-340 | every send and every step of the worker lowers a measure, so without new jobs they come to an end |
| JobManager.CanSettle | internal/maptool/jobmanager.go:108-340 | every reachable state whose worker has not left its loop can be brought to one where every job is settled |
| RenderOrchestrator.InvariantStep | internal/maptoolcli/maptool.go:258-328 | every step of every goroutine keeps slots, lock, results, claims and directories consistent |
| RenderOrchestrator.BoundedConcurrency | internal/maptoolcli/maptool.go:258-269 | in every interleaving at most the requested number of goroutines run, and at most one is in the critical section |
| RenderOrchestrator.EachWorldPublishedOnce | internal/maptoolcli/maptool.go:216-311 | a world is published at most once; with safe world names its directory holds exactly the output rendered for that input, whatever other goroutines clean, move and remove |
| RenderOrchestrator.ExistingNeverReplaced | internal/maptoolcli/maptool.go:222-228 | without force no directory that existed beforehand is replaced, other than a working directory left behind |
| RenderOrchestrator.LostOnlyByFailure | internal/maptoolcli/render.go:73-85 | at every moment a directory that existed is there, old or replaced by a published output, or overwriting is forced and an input that was to replace it fails |
| RenderOrchestrator.LossIsReported | internal/maptoolcli/maptool.go:302-348 | once all goroutines have finished, a lost directory's world is among the failed ones |
| RenderOrchestrator.ExistingCanBeLost | internal/maptoolcli/render.go:73-85 | a run under force in which the rename fails and the old directory is gone |
| RenderOrchestrator.EachInputOneResult | internal/maptoolcli/maptool.go:263-328 | once all goroutines have finished, each input has exactly one result, and one that says published was published |
| RenderOrchestrator.ResultExactly | internal/maptoolcli/maptool.go:263-328 | once all goroutines have finished, each input has exactly one result: failed on a world iff a move of its failed on that world, skipped iff without force that world's directory was there when it looked, and else published |
| RenderOrchestrator.UnhinderedIsPublished | internal/maptoolcli/maptool.go:263-328 | an input with a guess, none of whose moves fails, whose world is not there when it looks, or force is on, and was not published by another, is published |
| RenderOrchestrator.UnforcedPublishes | internal/maptoolcli/maptool.go:216-237 | a run without force that publishes its world |
| RenderOrchestrator.SeenWasPublished | internal/maptoolcli/maptool.go:219-236 | a world is refused as a duplicate only if it was published |
| RenderOrchestrator.PublishedUnderItsName | internal/maptoolcli/maptool.go:303-311 | a world is published under the name its own rendering gave it, or under the guess if that gave none |
| RenderOrchestrator.NothingLeftBehind | internal/maptoolcli/maptool.go:286-313 | once all goroutines have finished, no working directory is left unless it could not be discarded, or is of an earlier run and was never cleaned |
| RenderOrchestrator.UndisturbedStep | internal/maptoolcli/maptool.go:286-311 | every step of every goroutine keeps each other goroutine's rendered output where it is, and each published world's directory |
| RenderOrchestrator.NeverStuck | internal/maptoolcli/maptool.go:258-328 | no deadlock: with at least one job, some step is possible until all goroutines have finished |
| RenderOrchestrator.StepLowersRemaining | internal/maptoolcli/maptool.go:258-328 | every step that changes anything lowers a measure, so no run goes on for ever |
| RenderOrchestrator.CanFinish | internal/maptoolcli/maptool.go:258-328 | from every reachable state the run can be brought to its end |
| RenderOrchestrator.Summarize | internal/maptoolcli/maptool.go:330-350 | the summary lists exactly the outcomes, and the exit code is 0 iff none failed |
| RenderOrchestrator.DirectoriesDistinct | internal/maptoolcli/maptool.go:286-289 | working directories of different inputs differ, and no safe world name is one |
| RenderOrchestrator.SafeMeansPlain | internal/maptool/worldmeta.go:47-68 | exactly the nonempty names of lower-case letters, digits, underscores and hyphens are safe; so they lead to no other folder |
| StreamingJson.DecodeEncode | internal/storage/streaming_json_reader.go:124-125 | decoding a value's tokens gives the value back and leaves what follows |
| StreamingJson.SkipValue | internal/storage/streaming_json_reader.go:221-238 | skipping passes over a whole value at any depth |
| StreamingJson.SkipStopsPastArray | internal/storage/streaming_json_reader.go:221-238 | skipping an array stops exactly past its own closing bracket |
| StreamingJson.Reader.SkipToEndOfArray | internal/storage/streaming_json_reader.go:221-238 | the loop computes the skip, or its error at the end of the stream |
| StreamingJson.Reader.StreamArray | internal/storage/streaming_json_reader.go:166-206 | the array is expected, skipped without a callback, and streamed with one, making exactly the calls described |
| StreamingJson.Reader.Process | internal/storage/streaming_json_reader.go:83-162 | calls, metadata and error are those of the document report, for every token stream |
| StreamingJson.ProcessDocument | internal/storage/streaming_json_reader.go:83-162 | a well-formed object is read without error iff its streamed keys hold arrays its callbacks accept; then the entity, event, marker and time callbacks get, in order, exactly the elements of the arrays under "entities", "events", "Markers" and "times"; the metadata is always that of the members before the first unreadable one |
| StreamingJson.CallsByKey | internal/storage/streaming_json_reader.go:109-122 | each callback that is given gets exactly the elements of the arrays under its own key, in order |
| StreamingJson.ReadableByKey | internal/storage/streaming_json_reader.go:109-122 | entities and times must be objects, events and markers arrays, each accepted by its callback; without a callback any array will do, and under other keys any value |
| JsonText.CutDocument | internal/storage/streaming_json_reader.go:96-161 | a document whose text is cut off is read without an error if and only if the cut falls right after the opening brace, after a complete member before its comma, or inside a number that is the value of a key of its own and leaves a number; then it reads as if what is left were all; any other cut is reported |
| JsonText.CutValue | internal/storage/streaming_json_reader.go:107-127 | a value that is cut off is an error, whether decoded, streamed or skipped, unless it is a number cut to a shorter one, which it reads as |
| JsonText.StringReadBack | internal/storage/streaming_json_reader.go:107-111 | a string's text, with its escapes, ends at its closing quote and reads as the string |
| JsonText.Literals | internal/storage/streaming_json_reader.go:107-125 | null, true, false, numbers and quoted strings are spelled as RFC 8259 has them |
| JsonText.WholeDocument | internal/storage/streaming_json_reader.go:83-94 | the whole text of a document is delivered as its tokens |
| JsonText.ShortenedRecording | internal/storage/streaming_json_reader.go:123-144 | a recording that ends in its end frame, cut off within that number, reads without an error as one with the shorter number |
| JsonText.FifteenFrames | internal/storage/streaming_json_reader.go:123-144 | 1500 frames become 15 |
| JsonNumber.NumbersExactly | internal/storage/streaming_json_reader.go:123-144 | the scanner takes exactly the texts that RFC 8259, section 6, has as numbers |
| JsonNumber.ValueOfParts | internal/storage/streaming_json_reader.go:123-144 | a number's value is that of its digits, moved by its exponent and the length of its fraction, with its sign |
| JsonNumber.Half | internal/storage/streaming_json_reader.go:151-158 | a capture delay of 0.5 is one half |
| StreamingJson.ClosingIgnored | internal/storage/streaming_json_reader.go:96-161 | whatever follows the members makes no difference, unless it is another member: a closing bracket of the wrong kind or none at all goes unnoticed |
| StreamingJson.MetadataFields | internal/storage/streaming_json_reader.go:123-158 | each metadata field is the last value of the right type under its own key, numbers converted to uint32 and the capture delay to milliseconds |
| StreamingJson.ToUint32Means | internal/storage/streaming_json_reader.go:143-158 | a number becomes a uint32 by truncation towards zero, up to multiples of 2^32 |
| StreamingJson.DroppingCallbacks | internal/storage/streaming_json_reader.go:22-29 | dropping callbacks keeps the reading successful with the same metadata and drops just their calls |
| StreamingJson.DroppingReadsFurther | internal/storage/streaming_json_reader.go:22-29 | whether or not a reading succeeds, dropping callbacks lets it come at least as far, with the metadata of the members it came past |
| ElevationGrid.FieldLands | internal/maptool/dem.go:96-127 | field k of the file lands at row rows-1-k/cols, column k mod cols; missing ones are 0 |
| ElevationGrid.FieldsDetermineGrid | internal/maptool/dem.go:96-151 | two readings of the same fields give the same grid, however the fields are split into lines |
| ElevationGrid.AllLinesReadExactly | internal/maptool/dem.go:129-141 | all fields after the header are read if and only if the line that ended it is empty or starts with a float64 number |
| ElevationGrid.DroppedLineShifts | internal/maptool/dem.go:129-141 | otherwise that line is dropped and every later field takes the place of one that many fields earlier |
| ElevationGrid.LaterLineReported | internal/maptool/dem.go:107-114 | the same field at the start of any later line that still has a cell is an error |
| ElevationGrid.DroppedLine | internal/maptool/dem.go:129-151 | such a line, starting with a word or a number beyond float64, dropped without an error in front and reported further down |
| ElevationGrid.Grid.Store | internal/maptool/dem.go:115-124 | storing a field and moving on keeps every cell right and the position in step |
| ElevationGrid.Grid.ProcessLine | internal/maptool/dem.go:105-127 | all fields of a line with a cell are stored, extra ones ignored; the first that does not parse is reported at its row and column |
| ElevationGrid.Grid.ReadData | internal/maptool/dem.go:96-151 | the grid is filled from the concatenation of the data lines; reading fails exactly at the first field with a cell that does not parse |
| ElevationGrid.Grid.EncodeTerrainRGB | internal/maptool/heightmap.go:77-96 | every pixel encodes its cell, north up |
| ElevationGrid.EncodingPrecision | internal/maptool/heightmap.go:84-92 | the pixel is opaque with three bytes, and -10000 + 0.1 * (65536 r + 256 g + b) is the height to within 0.1 m below if and only if it is between -10000 m and the 24-bit limit |
| ElevationGrid.Heightmap | internal/maptool/heightmap.go:77-96 | end to end: the pixel at col and row encodes the value of field row * cols + col of the file, and 0 m for a missing field, NaN or the no-data value; reading fails iff a field with a cell does not parse |
| ElevationGrid.FieldEncoded | internal/maptool/dem.go:115-127 | a field that is a number other than the no-data value stands for itself, any other is encoded as 0 m |
| ElevationGrid.TooLowIsLowest | internal/maptool/heightmap.go:84-88 | heights under -10000 m are encoded as that |
| SystemTime.Search | ui/src/playback/time.ts:121-134 | for sorted samples the search finds the last one at or before the frame, or the first if there is none |
| SystemTime.FormatSystemTime | ui/src/playback/time.ts:113-163 | the instant on the line through that sample, with the forward, backward or default rate; a single sample goes on at 1000 ms a frame |
| SystemTime.HitsEverySample | ui/src/playback/time.ts:136-142 | every sample's own frame shows exactly that sample |
| SystemTime.LinearBetweenSamples | ui/src/playback/time.ts:144-162 | the instant lies on the line through the neighbouring samples; the first segment extends to earlier frames, the last to later ones |
| SystemTime.InvalidExactly | ui/src/playback/time.ts:144-162 | the shown date is invalid exactly beyond one end of the samples when the two samples there share a frame |
| SystemTime.NeverRunsBackwards | ui/src/playback/time.ts:144-162 | later frames never show earlier instants, within a segment, across joins and beyond both ends |
| SystemTime.RunsForwardExactly | ui/src/playback/time.ts:144-162 | at strictly increasing frames, shown time never runs backwards if and only if the samples' times never do |
| OperationStats.CountEntities | internal/conversion/worker.go:234-269 | distinct named players plus unnamed ones; per side its units and players; the recorded side of an ID is that of its last unit with one |
| OperationStats.CountEvents | internal/conversion/worker.go:271-290 | kills, kills by players, and each side's share by recorded side of source and target |
| OperationStats.ComputeStats | internal/conversion/worker.go:231-292 | the whole count, for every manifest |
| OperationStats.SideExactly | internal/conversion/worker.go:234-290 | a side's units, its players by distinct name and without one, the kills whose source is last recorded on it and the deaths whose target is, and when it is listed at all |
| OperationStats.TotalsExactly | internal/conversion/worker.go:234-290 | the players, kills and kills by players in all |
| OperationStats.PlayersAtMostUnits | internal/conversion/worker.go:249-267 | no side has more players than units |
| OperationStats.SidesAddUp | internal/conversion/worker.go:271-290 | over all sides kills sum to the kills whose source has a recorded side, deaths to those whose target has one, units to the units with a side |

## Left out

- Floating point: coordinates, heights, alphas and times are reals, so rounding, infinities and overflow of
  conversions to integers beyond truncation modulo 2^32 are not modelled.
- `internal/maptool/contour.go` `GenerateContours`: the loop over levels and the labelling of major and minor lines.
- The fields of a position: a parsed state is one value, and the per-format parsing of its fields is not modelled.
- Protobuf: a message type is a codec with a lossless marshal and unmarshal; the wire format is not modelled.
- ChunkConverter.Converter.Convert: leaves out errors of the JSON reader, of the bucket's files and of writing, and the
  cancellation between chunks, all of which also make it fail; and requires that no range ends at the largest
  `uint32`, where the program's own loop does not end (`ExpansionTerminates`).
- The manifest written by the converter: entity definitions, events, markers and times.
- ChunkManager.Cache.LoadManifest: loading another manifest during a fetch is left out, like what becomes of requests
  that `clear` forgets.
- ChunkConverter.WriteChunks: leaves out write errors and the cancellation between chunks.
- PlaybackEngine.Engine.ComputeSnapshots: leaves out the fields derived from a state (side, crew, player flag, shots);
  a state stands for what is shown. Active events, counters, the followed camera and re-entrant effects of signal
  writes are not modelled either.
- PlaybackEngine.LoadRecording: makes a new engine; loading a recording into one that is in use is not modelled.
- PlaybackEngine.Engine.OnFrame: is about positive capture delays; with one of 0 the program divides by the interval 0
  and goes to the end or to a frame that is not a number. `Run` and `RunTasks` pass over such callbacks.
- PlaybackEngine.Engine.RunTasks: takes from the browser that an answer and all that it resumes are one task, and each
  answer a task of its own. Which awaits a task resumes is left open: any of those whose chunk is in memory then, after
  the prefetch that asked for the answered chunk.
- Marker style: the active style persists across seeks in the program, so it is not claimed to depend on the frame
  only.
- MarkerManager.Manager.LoadMarkers: leaves out position parsing, popup texts, layer classification and the counts by
  player.
- `ParallelStages`, progress events and their hub, error files and the removal of temporary directories.
- `JobManager` and `RenderOrchestrator` are on values rather than objects: each step is atomic, as the program's locks
  and channel operations make it, and memory effects below that level are not modelled. `CancelJob` looks a job up and
  reads its fields in one step. A working directory comes into being when its rendering ends, whether it succeeds or fails.
- RenderOrchestrator.EachWorldPublishedOnce: what a published directory holds is claimed for safe world names only, the
  only ones the renderer lets pass (`internal/maptool/worldmeta.go:41-45`).
- RenderOrchestrator.LostOnlyByFailure: a removal either removes a directory or leaves it as it was; one that fails
  halfway is not modelled.
- RenderOrchestrator.Summarize: failures are collected by world name without their messages, and an input without a
  guess keeps its empty name.
- StreamingJson.Reader.Process: takes the token stream for granted. Go's decoder is modelled as far as cutting off
  well-formed text goes (`JsonText`), without white space, and with one spelling of each string; what else it makes of
  text that is not well-formed is not part of this model, nor are numbers beyond float64, which it refuses.
- StreamingJson.DroppingCallbacks: is about readings that succeed; for others see `DroppingReadsFurther`, since a
  callback that rejects an element cuts the metadata short.
- The header of an ASC grid, and `scanner` limits on line length.
- SystemTime.FormatSystemTime: gives the instant; parsing of UTC strings and formatting as HH:MM:SS are not modelled.
- HTTP, login, storage engine selection, external map tools, styles, sprites, settings and the user interface: input
  and output, tables and configuration, without state or algorithms of their own to prove anything about.
