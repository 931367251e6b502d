/** The playback engine (ui/src/playback/engine.ts) on top of the chunk cache. Every method is one
    uninterrupted piece of the event-driven program: a command, an animation frame, or the arrival of a
    network answer. */
module PlaybackEngine {
  import opened Common
  import opened ChunkManager
  import opened ChunkConverter
  import opened RecordingParser

  /** An entity of the manifest; positions are present only in legacy recordings. */
  datatype Entity<S> = Entity(startFrame: nat, endFrame: nat, positions: Option<seq<Option<S>>>) {
    predicate Alive(frame: nat) {
      startFrame <= frame <= endFrame
    }

    function OwnState(frame: nat): Option<S> {
      var i := frame - startFrame;
      if positions.Some? && 0 <= i < |positions.value| then positions.value[i] else None
    }
  }

  /** Every frame of a legacy entity has a state. */
  function Present<S>(states: seq<S>): seq<Option<S>> {
    seq(|states|, i requires 0 <= i < |states| => Some(states[i]))
  }

  /** The state shown for an entity: from the chunk if it has one, else from the entity itself. */
  function StateAt<S>(id: uint32, e: Entity<S>, data: Option<ChunkData<S>>, frame: nat, slot: nat): Option<S> {
    if !e.Alive(frame) then None
    else if data.Some? && data.value.Slot(id, slot).Some? then data.value.Slot(id, slot)
    else e.OwnState(frame)
  }

  /** What should be on screen at a frame, given the chunk that is in memory for it, if any. */
  function Snapshots<S>(entities: map<uint32, Entity<S>>, data: Option<ChunkData<S>>, frame: nat, slot: nat)
    : map<uint32, S>
  {
    map id | id in entities && StateAt(id, entities[id], data, frame, slot).Some? ::
      StateAt(id, entities[id], data, frame, slot).value
  }

  function Min(a: int, b: int): (m: int)
    ensures m <= a && m <= b && (m == a || m == b)
  {
    if a < b then a else b
  }

  /** A chunk in memory counts as accessed when it is asked for. */
  ghost function Accessed<D>(accesses: seq<nat>, loaded: map<nat, D>, k: nat): seq<nat> {
    if k in loaded then accesses + [k] else accesses
  }

  const MAX_FRAME_DELTA_MS: real := 100.0

  class Engine<S(!new)> {
    const cm: Cache?<ChunkData<S>>
    const manifest: Manifest
    const entities: map<uint32, Entity<S>>
    const endFrame: nat
    const captureDelayMs: real

    var currentFrame: nat
    var isPlaying: bool
    var playbackSpeed: real
    var snapshots: map<uint32, S>
    var animFrameId: Option<nat>
    var lastTickTime: real
    var accumulatedMs: real

    // the browser's side
    var scheduled: set<nat>  // animation callbacks that have not run yet
    var nextCallbackId: nat

    // since the loop was last (re)started
    ghost var keptMs: real      // elapsed time that counted
    ghost var framesDue: nat    // frames that time was worth
    ghost var origin: int       // the frame the count started from, rebased by seeks

    ghost var requestFailed: bool  // the last request for the current frame's chunk was answered by an error

    ghost function Interval(): real
      requires playbackSpeed != 0.0
      reads this`playbackSpeed
    {
      captureDelayMs / playbackSpeed
    }

    function SlotOf(frame: nat): nat {
      frame % manifest.FramesPerChunk()
    }

    ghost function DataFor(frame: nat): Option<ChunkData<S>>
      reads cm
    {
      if cm != null && manifest.ChunkOf(frame) in cm.loaded then Some(cm.loaded[manifest.ChunkOf(frame)]) else None
    }

    ghost predicate CacheReady()
      reads cm
    {
      cm != null ==> cm.WellFormed() && cm.Faithful() && cm.manifest == Some(manifest)
    }

    /** Whenever the chunk of the current frame is in memory, the screen shows that frame of that chunk;
        without a cache it shows the entities' own positions. */
    ghost predicate ShowsCurrentFrame()
      reads this`snapshots, this`currentFrame, cm
    {
      DataFor(currentFrame).Some? || cm == null ==>
        snapshots == Snapshots(entities, DataFor(currentFrame), currentFrame, SlotOf(currentFrame))
    }

    /** Chunk or no chunk, the screen never shows another frame: it shows the current one, either as its chunk's file
        has it or as it is without chunk data. */
    ghost predicate NeverStale()
      reads this`snapshots, this`currentFrame, cm
    {
      var k := manifest.ChunkOf(currentFrame);
      || snapshots == Snapshots(entities, None, currentFrame, SlotOf(currentFrame))
      || (cm != null && k in cm.file
          && snapshots == Snapshots(entities, Some(cm.file[k]), currentFrame, SlotOf(currentFrame)))
    }

    lemma FreshScreen()
      requires CacheReady()
      requires snapshots == Snapshots(entities, DataFor(currentFrame), currentFrame, SlotOf(currentFrame))
      ensures ShowsCurrentFrame() && NeverStale()
    {}

    /** The current frame's chunk is in memory or on its way. */
    ghost predicate Asked()
      reads this`currentFrame, cm
    {
      cm != null ==> manifest.ChunkOf(currentFrame) in cm.loaded || manifest.ChunkOf(currentFrame) in cm.loading
    }

    /** The screen shows the current frame as its chunk's file has it. */
    ghost predicate ShowsFile()
      requires cm != null
      reads this`snapshots, this`currentFrame, cm`file
    {
      var k := manifest.ChunkOf(currentFrame);
      k in cm.file && snapshots == Snapshots(entities, Some(cm.file[k]), currentFrame, SlotOf(currentFrame))
    }

    /** No chunk but k, if given, is marked as under way or as being prefetched that is not. */
    ghost predicate Tracked(k: Option<nat>)
      reads cm
    {
      cm != null ==>
        && (forall j <- cm.loading :: Some(j) == k || j in cm.fetches)
        && (cm.prefetching.Some? ==> cm.prefetching == k || cm.prefetching.value in cm.fetches)
    }

    /** The screen lacks the file's data only while the request for it is under way, or after that failed; and no mark
        is left behind. */
    ghost predicate Complete()
      reads this`snapshots, this`currentFrame, this`requestFailed, cm
    {
      && Tracked(None)
      && (cm != null ==> ShowsFile() || manifest.ChunkOf(currentFrame) in cm.fetches || requestFailed)
    }

    /** Late in a chunk, the next one is in memory or on its way. */
    ghost predicate Ahead(frame: nat)
      reads cm
    {
      var size, next := manifest.FramesPerChunk(), manifest.ChunkOf(frame) + 1;
      cm != null && 5 * (frame % size) >= 4 * size && next < manifest.chunkCount ==>
        next in cm.loaded || next in cm.loading
    }

    /** Exactly one animation callback is pending while playing, none otherwise. */
    ghost predicate OneCallback()
      reads this`isPlaying, this`animFrameId, this`scheduled, this`nextCallbackId
    {
      && (isPlaying ==> animFrameId.Some? && scheduled == {animFrameId.value})
      && (!isPlaying ==> scheduled == {})
      && (forall id <- scheduled :: id < nextCallbackId)
    }

    ghost predicate SpeedInRange()
      reads this`playbackSpeed
    {
      1.0 <= playbackSpeed <= 60.0
    }

    /** Kept time is the time accumulated plus the interval times the frames due; the accumulator stays
        below one interval. (Without a positive capture delay there is no interval.) */
    ghost predicate TimeKept()
      requires SpeedInRange()
      reads this`playbackSpeed, this`keptMs, this`accumulatedMs, this`framesDue
    {
      captureDelayMs > 0.0 ==>
        keptMs == accumulatedMs + framesDue as real * Interval() && 0.0 <= accumulatedMs < Interval()
    }

    /** The frame has advanced by the frames due, up to the end. */
    ghost predicate FramesCounted()
      reads this`currentFrame, this`framesDue, this`origin
    {
      currentFrame == Min(origin + framesDue, endFrame)
    }

    ghost predicate Valid()
      reads this, cm
    {
      && CacheReady() && ShowsCurrentFrame() && NeverStale() && OneCallback() && SpeedInRange()
      && currentFrame <= endFrame
      && (isPlaying ==> TimeKept() && FramesCounted())
    }

    /** loadRecording: a fresh, paused engine showing frame 0. */
    constructor (cm: Cache?<ChunkData<S>>, manifest: Manifest, entities: map<uint32, Entity<S>>, endFrame: nat,
                 captureDelayMs: real, now: real)
      requires cm != null ==> cm.WellFormed() && cm.Faithful() && cm.manifest == Some(manifest)
      ensures Valid() && !isPlaying && currentFrame == 0 && !requestFailed
      ensures this.cm == cm && this.manifest == manifest && this.entities == entities && this.endFrame == endFrame
      ensures this.captureDelayMs == captureDelayMs && playbackSpeed == 10.0 && lastTickTime == now
      ensures snapshots == Snapshots(entities, DataFor(0), 0, SlotOf(0))
      ensures cm != null && cm.loading == {} && cm.prefetching == None && DataFor(0).Some? ==> Complete()
    {
      this.cm, this.manifest, this.entities, this.endFrame := cm, manifest, entities, endFrame;
      this.captureDelayMs := captureDelayMs;
      currentFrame, isPlaying, playbackSpeed, snapshots := 0, false, 10.0, map[];
      animFrameId, lastTickTime, accumulatedMs := None, now, 0.0;
      scheduled, nextCallbackId := {}, 0;
      keptMs, framesDue, origin, requestFailed := 0.0, 0, 0, false;
      new;
      ComputeSnapshots(0);
      FreshScreen();
    }

    /** While playing, kept time and accumulator differ by the frames due, each worth the capture delay over the speed;
        and less than one frame's time is accumulated. */
    lemma TimeKeptMeans()
      requires Valid() && isPlaying && captureDelayMs > 0.0
      ensures (keptMs - accumulatedMs) * playbackSpeed == framesDue as real * captureDelayMs
      ensures 0.0 <= accumulatedMs && accumulatedMs * playbackSpeed < captureDelayMs
      ensures currentFrame == if origin + framesDue > endFrame then endFrame else origin + framesDue
    {
      IntervalMeans(keptMs, accumulatedMs, framesDue as real, captureDelayMs, playbackSpeed);
    }

    // ----- Snapshots

    method ComputeSnapshots(frame: nat)
      requires CacheReady()
      modifies this`snapshots
      ensures snapshots == Snapshots(entities, DataFor(frame), frame, SlotOf(frame))
    {
      var data := if cm == null then None else cm.ChunkForFrame(frame);
      var slot := SlotOf(frame);
      var shown: map<uint32, S> := map[];
      var ids := entities.Keys;
      while ids != {}
        invariant ids <= entities.Keys
        invariant forall id :: id in shown <==>
                    id in entities && id !in ids && StateAt(id, entities[id], data, frame, slot).Some?
        invariant forall id <- shown :: shown[id] == StateAt(id, entities[id], data, frame, slot).value
      {
        var id :| id in ids;
        ids := ids - {id};
        var entity := entities[id];
        if frame < entity.startFrame || frame > entity.endFrame {
          continue;
        }
        if data.Some? && data.value.Slot(id, slot).Some? {
          shown := shown[id := data.value.Slot(id, slot).value];
          continue;
        }
        var own := entity.OwnState(frame);
        if own.Some? {
          shown := shown[id := own.value];
        }
      }
      snapshots := shown;
    }

    // ----- The animation loop

    method RequestAnimationFrame() returns (id: nat)
      modifies this`scheduled, this`nextCallbackId
      ensures id == old(nextCallbackId) && nextCallbackId == id + 1
      ensures scheduled == old(scheduled) + {id}
    {
      id := nextCallbackId;
      nextCallbackId := nextCallbackId + 1;
      scheduled := scheduled + {id};
    }

    method ClearTimer()
      modifies this`animFrameId, this`scheduled
      ensures animFrameId == None
      ensures scheduled == old(scheduled) - if old(animFrameId).Some? then {old(animFrameId).value} else {}
    {
      if animFrameId.Some? {
        scheduled := scheduled - {animFrameId.value};
        animFrameId := None;
      }
    }

    method StartLoop(now: real)
      requires isPlaying && scheduled == {} && SpeedInRange() && currentFrame <= endFrame
      modifies this`accumulatedMs, this`lastTickTime, this`animFrameId, this`scheduled, this`nextCallbackId,
               this`keptMs, this`framesDue, this`origin
      ensures OneCallback() && TimeKept() && FramesCounted()
      ensures lastTickTime == now && accumulatedMs == 0.0 && framesDue == 0 && keptMs == 0.0
    {
      accumulatedMs := 0.0;
      lastTickTime := now;
      keptMs, framesDue, origin := 0.0, 0, currentFrame;
      ScheduleNext();
    }

    method Play(now: real)
      requires Valid()
      modifies this`isPlaying, this`accumulatedMs, this`lastTickTime, this`animFrameId, this`scheduled,
               this`nextCallbackId, this`keptMs, this`framesDue, this`origin
      ensures Valid()
      ensures isPlaying <==> old(isPlaying) || currentFrame < endFrame
      ensures isPlaying && !old(isPlaying) ==> lastTickTime == now && accumulatedMs == 0.0 && framesDue == 0
    {
      if isPlaying {
        return;
      }
      if currentFrame >= endFrame {
        return;
      }
      isPlaying := true;
      StartLoop(now);
    }

    method Pause()
      requires Valid()
      modifies this`isPlaying, this`animFrameId, this`scheduled
      ensures Valid() && !isPlaying
    {
      if !isPlaying {
        return;
      }
      Stop();
    }

    method SetSpeed(multiplier: real, now: real)
      requires Valid()
      modifies this`playbackSpeed, this`accumulatedMs, this`lastTickTime, this`animFrameId, this`scheduled,
               this`nextCallbackId, this`keptMs, this`framesDue, this`origin
      ensures Valid()
      ensures playbackSpeed == if multiplier > 60.0 then 60.0 else if multiplier < 1.0 then 1.0 else multiplier
      ensures isPlaying ==> lastTickTime == now && accumulatedMs == 0.0 && framesDue == 0
    {
      var capped := if multiplier > 60.0 then 60.0 else multiplier;
      playbackSpeed := if capped < 1.0 then 1.0 else capped;
      if isPlaying {
        ClearTimer();
        StartLoop(now);
      }
    }

    /** The synchronous part of ensureLoaded: it may record an access or issue a fetch, but loads nothing yet. */
    method EnsureLoaded(frame: nat)
      requires cm != null && CacheReady()
      modifies cm
      ensures CacheReady() && cm.loaded == old(cm.loaded) && cm.file == old(cm.file)
      ensures manifest.ChunkOf(frame) in cm.loaded || manifest.ChunkOf(frame) in cm.loading
      ensures old(Tracked(None)) ==> Tracked(None)
      ensures cm.accesses == Accessed(old(cm.accesses), cm.loaded, manifest.ChunkOf(frame))
    {
      cm.LoadChunk(manifest.ChunkOf(frame));
    }

    method JumpTo(clamped: nat)
      requires CacheReady()
      modifies this`currentFrame, this`snapshots, this`requestFailed, if cm == null then {} else {cm}
      ensures CacheReady() && ShowsCurrentFrame() && NeverStale() && currentFrame == clamped
      ensures Asked() && !requestFailed
      ensures old(Complete()) ==> Complete()
      ensures snapshots == Snapshots(entities, DataFor(clamped), clamped, SlotOf(clamped))
      ensures cm != null ==> cm.loaded == old(cm.loaded)
      ensures cm != null ==> cm.accesses == Accessed(old(cm.accesses), cm.loaded, manifest.ChunkOf(clamped))
      ensures cm != null ==> cm.file == old(cm.file)
    {
      currentFrame, requestFailed := clamped, false;
      ComputeSnapshots(clamped);
      FreshScreen();
      if cm != null {
        EnsureLoaded(clamped);
      }
    }

    method SeekTo(frame: int)
      requires Valid()
      modifies this`currentFrame, this`snapshots, this`requestFailed, this`origin, if cm == null then {} else {cm}
      ensures Valid() && Asked() && !requestFailed
      ensures old(Complete()) ==> Complete()
      ensures currentFrame == if frame < 0 then 0 else Min(frame, endFrame)
      ensures snapshots == Snapshots(entities, DataFor(currentFrame), currentFrame, SlotOf(currentFrame))
      ensures cm != null ==> cm.loaded == old(cm.loaded)
      ensures cm != null ==> cm.accesses == Accessed(old(cm.accesses), cm.loaded, manifest.ChunkOf(currentFrame))
      ensures cm != null ==> cm.file == old(cm.file)
    {
      hide CacheReady, ShowsCurrentFrame, NeverStale, Asked, Complete, OneCallback, Snapshots, Accessed, TimeKept;
      var clamped := if Min(frame, endFrame) < 0 then 0 else Min(frame, endFrame);
      origin := clamped - framesDue;
      JumpTo(clamped);
    }

    /** seekTo resumes once the chunk it asked for is there: recompute unless the frame has moved on. */
    method SeekResolved(clamped: nat)
      requires Valid()
      modifies this`snapshots
      ensures Valid()
      ensures snapshots == if currentFrame != clamped then old(snapshots)
        else Snapshots(entities, DataFor(clamped), clamped, SlotOf(clamped))
      ensures old(Complete()) && DataFor(clamped).Some? ==> Complete()
    {
      if currentFrame == clamped {
        ComputeSnapshots(clamped);
        FreshScreen();
      }
    }

    /** Elapsed time joins the accumulator, unless the gap shows that the tab was in the background. */
    method Accumulate(now: real)
      requires now >= lastTickTime
      modifies this`lastTickTime, this`accumulatedMs, this`keptMs
      ensures lastTickTime == now
      ensures var elapsed := now - old(lastTickTime);
        var delta := if elapsed > MAX_FRAME_DELTA_MS then 0.0 else elapsed;
        delta >= 0.0 && keptMs == old(keptMs) + delta && accumulatedMs == old(accumulatedMs) + delta
    {
      var delta := now - lastTickTime;
      lastTickTime := now;
      if delta > MAX_FRAME_DELTA_MS {
        delta := 0.0;
      }
      accumulatedMs := accumulatedMs + delta;
      keptMs := keptMs + delta;
    }

    /** Whole intervals are taken off the accumulator as frames due. */
    method TakeFrames() returns (framesToAdvance: int)
      requires captureDelayMs > 0.0 && SpeedInRange() && accumulatedMs >= 0.0
      requires keptMs == accumulatedMs + framesDue as real * Interval()
      modifies this`accumulatedMs, this`framesDue
      ensures framesToAdvance >= 0 && framesDue == old(framesDue) + framesToAdvance
      ensures TimeKept()
    {
      var idealInterval := captureDelayMs / playbackSpeed;
      framesToAdvance := (accumulatedMs / idealInterval).Floor;
      TakeWholeFrames(accumulatedMs, idealInterval, framesDue);
      if framesToAdvance <= 0 {
        return;
      }
      accumulatedMs := accumulatedMs - framesToAdvance as real * idealInterval;
      framesDue := framesDue + framesToAdvance;
    }

    /** The time-keeping part of a callback: how many frames are due. */
    method TakeTime(now: real) returns (framesToAdvance: int)
      requires captureDelayMs > 0.0 && SpeedInRange() && TimeKept() && now >= lastTickTime
      modifies this`lastTickTime, this`accumulatedMs, this`keptMs, this`framesDue
      ensures framesToAdvance >= 0 && framesDue == old(framesDue) + framesToAdvance && lastTickTime == now
      ensures var elapsed := now - old(lastTickTime);
        keptMs == old(keptMs) + if elapsed > MAX_FRAME_DELTA_MS then 0.0 else elapsed
      ensures TimeKept()
    {
      Accumulate(now);
      framesToAdvance := TakeFrames();
    }

    method AdvanceTo(nextFrame: nat)
      requires CacheReady()
      modifies this`currentFrame, this`snapshots, this`requestFailed, if cm == null then {} else {cm}
      ensures CacheReady() && ShowsCurrentFrame() && NeverStale() && currentFrame == nextFrame && Asked()
      ensures !requestFailed
      ensures old(Complete()) ==> Complete()
      ensures snapshots == Snapshots(entities, DataFor(nextFrame), nextFrame, SlotOf(nextFrame))
      ensures cm != null ==> cm.loaded == old(cm.loaded)
      ensures cm != null ==> cm.accesses == Accessed(old(cm.accesses), cm.loaded, manifest.ChunkOf(nextFrame))
      ensures cm != null ==> cm.file == old(cm.file)
    {
      currentFrame, requestFailed := nextFrame, false;
      if cm != null {
        EnsureLoaded(nextFrame);
      }
      ComputeSnapshots(nextFrame);
      FreshScreen();
    }

    /** One animation callback runs. */
    method OnFrame(id: nat, now: real)
      requires captureDelayMs > 0.0 && Valid() && id in scheduled && now >= lastTickTime
      modifies this, if cm == null then {} else {cm}
      ensures Valid() && playbackSpeed == old(playbackSpeed) && origin == old(origin)
      ensures lastTickTime == now && framesDue >= old(framesDue)
      ensures var elapsed := now - old(lastTickTime); keptMs == old(keptMs) + if elapsed > 100.0 then 0.0 else elapsed
      ensures TimeKept()
      ensures currentFrame == Min(old(currentFrame) + framesDue - old(framesDue), endFrame) >= old(currentFrame)
      ensures isPlaying <==> framesDue == old(framesDue) || currentFrame < endFrame
      ensures currentFrame != old(currentFrame) ==> Asked()
      ensures cm != null ==> cm.loaded == old(cm.loaded)
      ensures cm != null && currentFrame != old(currentFrame) ==>
                cm.accesses == Accessed(old(cm.accesses), cm.loaded, manifest.ChunkOf(currentFrame))
      ensures snapshots == if currentFrame == old(currentFrame) then old(snapshots)
        else Snapshots(entities, DataFor(currentFrame), currentFrame, SlotOf(currentFrame))
      ensures requestFailed == (old(requestFailed) && currentFrame == old(currentFrame))
      ensures old(Complete()) ==> Complete()
      ensures cm != null ==> cm.file == old(cm.file)
    {
      scheduled := scheduled - {id};
      if !isPlaying {
        return;
      }
      assert scheduled == {};
      KeepTime(now);
    }

    /** A callback while playing: take the time, and show the frame that is due. */
    method KeepTime(now: real)
      requires CacheReady() && ShowsCurrentFrame() && NeverStale() && SpeedInRange() && TimeKept()
      requires captureDelayMs > 0.0 && isPlaying && scheduled == {} && currentFrame <= endFrame && now >= lastTickTime
      modifies this`lastTickTime, this`accumulatedMs, this`keptMs, this`framesDue,
               this`currentFrame, this`isPlaying, this`snapshots, this`requestFailed, this`animFrameId,
               this`scheduled, this`nextCallbackId, if cm == null then {} else {cm}
      ensures CacheReady() && ShowsCurrentFrame() && NeverStale() && OneCallback() && TimeKept()
      ensures lastTickTime == now && framesDue >= old(framesDue)
      ensures var elapsed := now - old(lastTickTime);
        keptMs == old(keptMs) + if elapsed > MAX_FRAME_DELTA_MS then 0.0 else elapsed
      ensures currentFrame == Min(old(currentFrame) + framesDue - old(framesDue), endFrame)
      ensures isPlaying <==> framesDue == old(framesDue) || currentFrame < endFrame
      ensures currentFrame != old(currentFrame) ==> Asked()
      ensures cm != null ==> cm.loaded == old(cm.loaded)
      ensures cm != null && currentFrame != old(currentFrame) ==>
                cm.accesses == Accessed(old(cm.accesses), cm.loaded, manifest.ChunkOf(currentFrame))
      ensures snapshots == if currentFrame == old(currentFrame) then old(snapshots)
        else Snapshots(entities, DataFor(currentFrame), currentFrame, SlotOf(currentFrame))
      ensures requestFailed == (old(requestFailed) && currentFrame == old(currentFrame))
      ensures old(Complete()) ==> Complete()
      ensures cm != null ==> cm.file == old(cm.file)
    {
      hide CacheReady, ShowsCurrentFrame, NeverStale, Asked, Complete, Snapshots, Accessed, OneCallback;
      var framesToAdvance := TakeTime(now);
      AdvanceBy(framesToAdvance);
    }

    /** The rest of a callback: show the frame that is due, and schedule the next callback unless at the end. */
    method AdvanceBy(framesToAdvance: nat)
      requires CacheReady() && ShowsCurrentFrame() && NeverStale()
      requires isPlaying && scheduled == {} && currentFrame <= endFrame
      modifies this`currentFrame, this`isPlaying, this`snapshots, this`requestFailed, this`animFrameId,
               this`scheduled, this`nextCallbackId, if cm == null then {} else {cm}
      ensures CacheReady() && ShowsCurrentFrame() && NeverStale() && OneCallback()
      ensures currentFrame == Min(old(currentFrame) + framesToAdvance, endFrame)
      ensures isPlaying <==> framesToAdvance == 0 || currentFrame < endFrame
      ensures currentFrame != old(currentFrame) ==> Asked()
      ensures cm != null ==> cm.loaded == old(cm.loaded)
      ensures cm != null && currentFrame != old(currentFrame) ==>
                cm.accesses == Accessed(old(cm.accesses), cm.loaded, manifest.ChunkOf(currentFrame))
      ensures snapshots == if currentFrame == old(currentFrame) then old(snapshots)
        else Snapshots(entities, DataFor(currentFrame), currentFrame, SlotOf(currentFrame))
      ensures requestFailed == (old(requestFailed) && currentFrame == old(currentFrame))
      ensures old(Complete()) ==> Complete()
      ensures cm != null ==> cm.file == old(cm.file)
    {
      hide CacheReady, ShowsCurrentFrame, NeverStale, Asked, Complete, Snapshots, Accessed;
      if framesToAdvance <= 0 {
        ScheduleNext();
        return;
      }
      var frame, end := currentFrame, endFrame;
      if frame >= end {
        Stop();
        return;
      }
      var nextFrame := Min(frame + framesToAdvance, end);
      AdvanceTo(nextFrame);
      if nextFrame >= end {
        Stop();
        return;
      }
      ScheduleNext();
    }

    method ScheduleNext()
      requires isPlaying && scheduled == {}
      modifies this`animFrameId, this`scheduled, this`nextCallbackId
      ensures OneCallback()
    {
      var id := RequestAnimationFrame();
      animFrameId := Some(id);
    }

    method Stop()
      requires animFrameId.Some? ==> scheduled <= {animFrameId.value}
      requires animFrameId.None? ==> scheduled == {}
      modifies this`isPlaying, this`animFrameId, this`scheduled
      ensures !isPlaying && OneCallback()
    {
      isPlaying := false;
      ClearTimer();
    }

    // ----- Network answers

    /** A chunk arrives: it is stored, and if it is the current frame's chunk the screen is recomputed. */
    method ChunkArrived(k: nat, chunk: ChunkData<S>)
      requires Valid() && cm != null && k in cm.fetches && k in cm.file && chunk == cm.file[k]
      modifies this`snapshots, this`requestFailed, cm`loaded, cm`order, cm`accesses, cm`fetches
      ensures Valid() && cm.fetches == old(cm.fetches)[k := old(cm.fetches)[k] - 1] && k in cm.loaded
      ensures old(Tracked(None)) ==> Tracked(Some(k))
      ensures requestFailed == (old(requestFailed) && k != manifest.ChunkOf(currentFrame))
      ensures if k == manifest.ChunkOf(currentFrame) then ShowsFile() else snapshots == old(snapshots)
    {
      hide CacheReady, ShowsCurrentFrame, NeverStale, OneCallback, TimeKept, FramesCounted, Snapshots;
      StoreArrived(k, chunk);
      OnChunkLoaded(k);
      requestFailed := requestFailed && k != manifest.ChunkOf(currentFrame);
    }

    method StoreArrived(k: nat, chunk: ChunkData<S>)
      requires CacheReady() && ShowsCurrentFrame() && NeverStale()
      requires cm != null && k in cm.fetches && k in cm.file && chunk == cm.file[k]
      modifies cm`loaded, cm`order, cm`accesses, cm`fetches
      ensures CacheReady() && NeverStale() && (k != manifest.ChunkOf(currentFrame) ==> ShowsCurrentFrame())
      ensures cm.fetches == old(cm.fetches)[k := old(cm.fetches)[k] - 1] && k in cm.loaded
      ensures cm != null ==> cm.file == old(cm.file)
    {
      cm.ChunkArrived(k, chunk);
    }

    /** The cache's callback: an early arrival of another chunk changes nothing on screen. */
    method OnChunkLoaded(k: nat)
      requires CacheReady() && NeverStale() && cm != null && k in cm.loaded
      requires k != manifest.ChunkOf(currentFrame) ==> ShowsCurrentFrame()
      modifies this`snapshots
      ensures ShowsCurrentFrame() && NeverStale()
      ensures if k == manifest.ChunkOf(currentFrame) then ShowsFile() else snapshots == old(snapshots)
    {
      if k == manifest.ChunkOf(currentFrame) {
        ComputeSnapshots(currentFrame);
        FreshScreen();
      }
    }

    method FetchFailed(k: nat)
      requires Valid() && cm != null && k in cm.fetches
      modifies this`requestFailed, cm`fetches
      ensures Valid() && cm.fetches == old(cm.fetches)[k := old(cm.fetches)[k] - 1]
      ensures old(Tracked(None)) ==> Tracked(Some(k))
      ensures requestFailed == (old(requestFailed) || k == manifest.ChunkOf(currentFrame))
    {
      cm.FetchFailed(k);
      requestFailed := requestFailed || k == manifest.ChunkOf(currentFrame);
    }

    method LoadSettled(k: nat)
      requires Valid() && cm != null && k !in cm.fetches
      modifies cm`loading
      ensures Valid() && cm.loading == old(cm.loading) - {k}
    {
      cm.LoadSettled(k);
    }

    /** ensureLoaded resumes and may prefetch; the frame it was called for need not be current any more. */
    method EnsureResolved(frame: nat)
      requires Valid() && cm != null
      modifies cm
      ensures Valid() && cm.loaded == old(cm.loaded) && old(cm.loading) <= cm.loading
      ensures old(Complete()) || old(cm.prefetching) != Some(manifest.ChunkOf(frame) + 1) ==> Ahead(frame)
      ensures old(Complete()) ==> Complete()
      ensures cm != null ==> cm.file == old(cm.file)
    {
      cm.CheckPrefetch(frame, manifest.ChunkOf(frame));
    }

    method PrefetchSettled()
      requires Valid() && cm != null
      modifies cm`prefetching
      ensures Valid() && cm.prefetching == None
      ensures old(Complete()) ==> Complete()
    {
      cm.PrefetchSettled();
    }

    // ----- Every interleaving

    /** Runs any schedule of commands, callbacks and network answers; steps that cannot happen are passed over.
        Valid holds throughout, so it holds after every schedule. */
    method Run(steps: seq<Step>)
      requires Valid()
      modifies this, if cm == null then {} else {cm}
      ensures Valid()
      ensures cm != null ==> cm.file == old(cm.file)
    {
      for i := 0 to |steps|
        invariant Valid() && (cm != null ==> cm.file == old(cm.file))
      {
        RunStep(steps[i]);
      }
    }

    /** What a command does to the frame, the speed and the clock. */
    twostate predicate Commanded(command: Command)
      reads this`currentFrame, this`isPlaying, this`playbackSpeed, this`lastTickTime, this`keptMs, this`accumulatedMs,
            this`framesDue
    {
      match command
      case Tick(now) =>
        && playbackSpeed == old(playbackSpeed)
        && if captureDelayMs > 0.0 && old(isPlaying) && now >= old(lastTickTime)
           then
             var elapsed := now - old(lastTickTime);
             && lastTickTime == now && keptMs == old(keptMs) + (if elapsed > 100.0 then 0.0 else elapsed)
             && SpeedInRange() && TimeKept()
             && currentFrame == Min(old(currentFrame) + framesDue - old(framesDue), endFrame)
             && (isPlaying <==> framesDue == old(framesDue) || currentFrame < endFrame)
           else currentFrame == old(currentFrame) && isPlaying == old(isPlaying)
      case SeekTo(frame) =>
        && currentFrame == (if frame < 0 then 0 else if frame > endFrame then endFrame else frame)
        && isPlaying == old(isPlaying) && playbackSpeed == old(playbackSpeed)
      case Play(now) =>
        && currentFrame == old(currentFrame) && playbackSpeed == old(playbackSpeed)
        && (isPlaying <==> old(isPlaying) || currentFrame < endFrame)
        && (isPlaying && !old(isPlaying) ==> lastTickTime == now && accumulatedMs == 0.0)
      case Pause =>
        currentFrame == old(currentFrame) && playbackSpeed == old(playbackSpeed) && !isPlaying
      case SetSpeed(multiplier, now) =>
        && currentFrame == old(currentFrame) && isPlaying == old(isPlaying)
        && playbackSpeed == (if multiplier > 60.0 then 60.0 else if multiplier < 1.0 then 1.0 else multiplier)
        && (isPlaying ==> lastTickTime == now && accumulatedMs == 0.0)
    }

    method RunStep(step: Step)
      requires Valid()
      modifies this, if cm == null then {} else {cm}
      ensures Valid()
      ensures step.Command? ==> Commanded(step.command)
      ensures cm != null ==> cm.file == old(cm.file)
    {
      match step {
        case Command(command) => RunCommand(command);
        case Network(answer) =>
          if cm != null {
            RunAnswer(answer);
          }
        case Resumption(resumption) => RunResumption(resumption);
      }
    }

    method RunCommand(command: Command)
      requires Valid()
      modifies this, if cm == null then {} else {cm}
      ensures Valid() && Commanded(command)
      ensures currentFrame != old(currentFrame) ==> Asked()
      ensures old(Complete()) ==> Complete()
      ensures requestFailed ==> old(requestFailed)
      ensures cm != null ==> cm.file == old(cm.file)
    {
      hide CacheReady, ShowsCurrentFrame, NeverStale, Complete, Asked;
      match command {
        case Tick(now) =>
          if captureDelayMs > 0.0 && isPlaying && now >= lastTickTime {
            OnFrame(animFrameId.value, now);
          }
        case SeekTo(frame) => SeekTo(frame);
        case Play(now) => Play(now);
        case Pause => Pause();
        case SetSpeed(multiplier, now) => SetSpeed(multiplier, now);
      }
    }

    method RunAnswer(answer: Answer)
      requires Valid() && cm != null
      modifies this`snapshots, this`requestFailed, cm
      ensures Valid()
      ensures cm != null ==> cm.file == old(cm.file)
      ensures answer.ChunkArrived? && answer.k in old(cm.fetches) && answer.k in cm.file ==>
                answer.k in cm.loaded && cm.fetches[answer.k] == old(cm.fetches)[answer.k] - 1
      ensures answer.FetchFailed? && answer.k in old(cm.fetches) ==>
                cm.fetches[answer.k] == old(cm.fetches)[answer.k] - 1
      ensures answer.LoadSettled? && answer.k !in old(cm.fetches) ==> cm.loading == old(cm.loading) - {answer.k}
    {
      match answer {
        case ChunkArrived(k) =>
          if k in cm.fetches && k in cm.file {
            ChunkArrived(k, cm.file[k]);
          }
        case FetchFailed(k) =>
          if k in cm.fetches {
            FetchFailed(k);
          }
        case LoadSettled(k) =>
          if k !in cm.fetches {
            LoadSettled(k);
          }
      }
    }

    /** The chunk that was waited for is in memory. */
    predicate CanResume(resumption: Resumption)
      reads cm
    {
      cm != null && (resumption.PrefetchSettled? || manifest.ChunkOf(resumption.frame) in cm.loaded)
    }

    method RunResumption(resumption: Resumption)
      requires Valid()
      modifies this`snapshots, if cm == null then {} else {cm}
      ensures Valid()
      ensures old(Complete() && CanResume(resumption)) ==> Complete()
      ensures cm != null ==> cm.file == old(cm.file)
      ensures cm != null ==> cm.loaded == old(cm.loaded) && old(cm.loading) <= cm.loading
      ensures resumption.EnsureResolved? && old(Complete()) ==> Ahead(resumption.frame)
      ensures resumption == Resumption.SeekResolved(currentFrame) ==>
                snapshots == Snapshots(entities, DataFor(currentFrame), currentFrame, SlotOf(currentFrame))
      ensures resumption.PrefetchSettled? && cm != null ==> cm.prefetching == None
    {
      match resumption {
        case SeekResolved(frame) => SeekResolved(frame);
        case EnsureResolved(frame) =>
          if cm != null {
            EnsureResolved(frame);
          }
        case PrefetchSettled =>
          if cm != null {
            PrefetchSettled();
          }
      }
    }

    // ----- Whole tasks

    ghost function Files(): set<nat>
      reads cm
    {
      if cm == null then {} else cm.file.Keys
    }

    /** Runs any schedule of the browser's tasks. Then at the end of each the screen is complete, unless the current
        frame's chunk is under way or could not be had. */
    method RunTasks(tasks: seq<Task>)
      requires Valid() && Complete()
      modifies this, if cm == null then {} else {cm}
      ensures Valid() && Complete()
      ensures requestFailed ==>
                old(requestFailed) || exists i :: 0 <= i < |tasks| && GetsNothing(tasks[i], old(Files()))
      ensures cm != null ==> cm.file == old(cm.file)
    {
      for i := 0 to |tasks|
        invariant Valid() && Complete() && (cm != null ==> cm.file == old(cm.file))
        invariant requestFailed ==>
                    old(requestFailed) || exists j :: 0 <= j < i && GetsNothing(tasks[j], old(Files()))
      {
        hide CacheReady, ShowsCurrentFrame, NeverStale, Complete, Valid, GetsNothing;
        RunTask(tasks[i]);
      }
    }

    /** A command, a callback or a network answer, and then all that was waiting for a chunk it found or stored. */
    method RunTask(task: Task)
      requires Valid() && Complete()
      modifies this, if cm == null then {} else {cm}
      ensures Valid() && Complete()
      ensures requestFailed ==> old(requestFailed) || GetsNothing(task, old(Files()))
      ensures cm != null ==> cm.file == old(cm.file)
      ensures task.start.Command? ==> Commanded(task.start.command)
      ensures !task.start.Command? && cm != null && task.start.k in old(cm.fetches) ==>
                if task.start.Answered? && task.start.k in cm.file then task.start.k in cm.loaded
                else task.start.k == manifest.ChunkOf(currentFrame) ==> requestFailed
      ensures AheadAfter(task.resumptions)
    {
      hide CacheReady, ShowsCurrentFrame, NeverStale, Complete, Valid, AheadAfter;
      match task.start {
        case Command(command) => RunCommand(command);
        case Answered(k) =>
          if cm != null && k in cm.fetches {
            Answered(k);
          }
        case Failed(k) =>
          if cm != null && k in cm.fetches {
            Failed(k);
          }
      }
      Resume(task.resumptions);
    }

    /** A chunk arrives, or cannot be decoded; its load settles, and with it the prefetch that asked for it. */
    method Answered(k: nat)
      requires Valid() && Complete() && cm != null && k in cm.fetches
      modifies this`snapshots, this`requestFailed, cm
      ensures Valid() && Complete() && k !in cm.fetches
      ensures if k in cm.file then k in cm.loaded && (requestFailed ==> old(requestFailed))
              else requestFailed == (old(requestFailed) || k == manifest.ChunkOf(currentFrame))
      ensures cm != null ==> cm.file == old(cm.file)
    {
      hide CacheReady, ShowsCurrentFrame, NeverStale, Valid, Tracked, Snapshots;
      assert cm.fetches[k] <= 1 by {
        OneFetch(k);
      }
      if k in cm.file {
        ChunkArrived(k, cm.file[k]);
        Settle(k);
      } else {
        Failed(k);
      }
    }

    method Failed(k: nat)
      requires Valid() && Complete() && cm != null && k in cm.fetches
      modifies this`requestFailed, cm
      ensures Valid() && Complete() && k !in cm.fetches
      ensures requestFailed == (old(requestFailed) || k == manifest.ChunkOf(currentFrame))
      ensures cm != null ==> cm.file == old(cm.file)
    {
      hide CacheReady, ShowsCurrentFrame, NeverStale, Valid, Tracked, Snapshots;
      assert cm.fetches[k] <= 1 by {
        OneFetch(k);
      }
      FetchFailed(k);
      Settle(k);
    }

    lemma OneFetch(k: nat)
      requires Valid() && cm != null
      ensures cm.fetches[k] <= 1
    {}

    method Settle(k: nat)
      requires Valid() && cm != null && k !in cm.fetches && Tracked(Some(k))
      modifies cm`loading, cm`prefetching
      ensures Valid() && Tracked(None)
    {
      LoadSettled(k);
      if cm.prefetching == Some(k) {
        PrefetchSettled();
      }
    }

    /** Playback that was late in its chunk has the next one in memory or on its way. */
    ghost predicate AheadAfter(resumptions: seq<Resumption>)
      reads cm
    {
      cm != null ==> forall r <- resumptions ::
        r.EnsureResolved? && manifest.ChunkOf(r.frame) in cm.loaded ==> Ahead(r.frame)
    }

    /** What was waiting resumes, in any order. A chunk that was found or stored in this task is still in memory then,
        since only an answer stores a chunk; resumptions for any other chunk are passed over. */
    method Resume(resumptions: seq<Resumption>)
      requires Valid() && Complete()
      modifies this`snapshots, if cm == null then {} else {cm}
      ensures Valid() && Complete()
      ensures cm != null ==> cm.file == old(cm.file) && cm.loaded == old(cm.loaded)
      ensures AheadAfter(resumptions)
    {
      hide CacheReady, ShowsCurrentFrame, NeverStale, Complete, Valid;
      for i := 0 to |resumptions|
        invariant Valid() && Complete() && (cm != null ==> cm.file == old(cm.file) && cm.loaded == old(cm.loaded))
        invariant AheadAfter(resumptions[..i])
      {
        if CanResume(resumptions[i]) {
          RunResumption(resumptions[i]);
        }
      }
    }

    // ----- What is on screen

    /** The engine plays this output of the converter. */
    ghost predicate Plays(out: Output<S>, states: seq<EntityState<S>>)
      requires cm != null
      reads cm`file
    {
      && out.chunkSize > 0 && Representable(out.endFrame, out.chunkSize)
      && IsOutput(out, out.endFrame, out.chunkSize, states)
      && manifest == Manifest(out.chunkSize, out.chunkCount) && endFrame == out.endFrame
      && ServedFrom(cm.file, out.chunks)
    }

    lemma PlaysOutput(out: Output<S>, states: seq<EntityState<S>>)
      requires cm != null && out.chunkSize > 0 && Representable(out.endFrame, out.chunkSize)
      requires IsOutput(out, out.endFrame, out.chunkSize, states) && ServedFrom(cm.file, out.chunks)
      requires manifest == Manifest(out.chunkSize, out.chunkCount) && endFrame == out.endFrame
      ensures Plays(out, states)
    {}

    /** The current frame's chunk is in memory; or a task is over, the chunk is not under way, and the last request for
        it did not fail. */
    ghost predicate Settled()
      requires cm != null
      reads this`snapshots, this`currentFrame, this`requestFailed, cm
    {
      || DataFor(currentFrame).Some?
      || (Complete() && manifest.ChunkOf(currentFrame) !in cm.fetches && !requestFailed)
    }

    lemma SettledShowsFile()
      requires Valid() && cm != null && Settled()
      ensures ShowsFile()
    {}

    lemma DeadIsNotShown(id: uint32)
      requires Valid() && id in entities && !entities[id].Alive(currentFrame)
      ensures id !in snapshots
    {}

    /** If the server holds a converted recording, then the state on screen for a living entity is the last one the
        parser emitted for it at this frame, whenever the frame's chunk is in memory, and also after any task unless
        the chunk is under way or the last request for it failed. */
    lemma ShownIsLastEmitted(out: Output<S>, states: seq<EntityState<S>>, id: uint32)
      requires Valid() && cm != null && Settled() && Plays(out, states)
      requires id in entities && entities[id].Alive(currentFrame) && entities[id].positions.None?
      ensures var last := LastEmitted(states, id, currentFrame);
        if last.Some? then id in snapshots && snapshots[id] == last.value else id !in snapshots
    {
      var k, i := manifest.ChunkOf(currentFrame), SlotOf(currentFrame);
      SettledShowsFile();
      LookupFindsLastEmitted(out, states, out.endFrame, out.chunkSize, cm.file[k], id, currentFrame, k, i);
    }

    /** And at any moment at all, while chunks are being fetched or have been evicted, whatever is on screen for such
        an entity is right: a state that is shown is the last one emitted for it at the current frame. */
    lemma NothingWrongIsShown(out: Output<S>, states: seq<EntityState<S>>, id: uint32)
      requires Valid() && cm != null && Plays(out, states)
      requires id in snapshots && id in entities && entities[id].positions.None?
      ensures LastEmitted(states, id, currentFrame) == Some(snapshots[id])
    {
      var k, i := manifest.ChunkOf(currentFrame), SlotOf(currentFrame);
      assert k in cm.file;
      LookupFindsLastEmitted(out, states, out.endFrame, out.chunkSize, cm.file[k], id, currentFrame, k, i);
    }

    /** In a legacy recording, whose entities carry their own positions, the screen shows the last state the Go
        expansion of the same entries records for the current frame: the two paths look the same. */
    lemma LegacyShowsLastRecorded(entries: seq<Entry<S>>, startFrame: uint32, kind: Kind, id: uint32)
      requires Valid() && cm == null && id in entities
      requires entries != [] && SameShape(entries, kind) && Aligned(entries, startFrame, kind)
      requires startFrame == entities[id].startFrame && IsLegacy(entities[id], entries, kind)
      ensures var last := LastAt(Positions(entries, startFrame, kind), currentFrame);
        if last.Some? then id in snapshots && snapshots[id] == last.value else id !in snapshots
    {
      LegacyStateAt(id, entities[id], entries, kind, currentFrame, SlotOf(currentFrame));
      assert snapshots == Snapshots(entities, None, currentFrame, SlotOf(currentFrame));
    }
  }

  /** The entity as the legacy decoder makes it from these entries. */
  ghost predicate IsLegacy<S>(e: Entity<S>, entries: seq<Entry<S>>, kind: Kind) {
    && e.startFrame < TWO_32 && Complete(entries)
    && e.endFrame == LegacyEndFrame(entries, e.startFrame, kind)
    && e.positions == Some(Present(LegacyStates(entries, kind)))
  }

  /** The entity as the converter's manifest describes it. */
  ghost predicate IsConverted<S>(e: Entity<S>, raw: RawEntity<S>) {
    && raw.entries.Some? && e.positions.None?
    && e.startFrame == raw.startFrame && e.endFrame == EndFrame(raw.entries.value, raw.startFrame)
  }

  function Shown<S>(snapshots: map<uint32, S>, id: uint32): Option<S> {
    if id in snapshots then Some(snapshots[id]) else None
  }

  /** The two paths, end to end: a recording played from its converted chunks and the same recording played from its
      JSON show the same state of an entity with its own id and aligned entries, at every frame except between the end
      frame that the Go parser gives the entity and the one that the legacy path does. */
  lemma {:induction false} BothPathsShowTheSame<S(!new)>(converted: Engine<S>, legacy: Engine<S>, out: Output<S>,
                                                         entities: seq<RawEntity<S>>, i: nat)
    requires converted.Valid() && converted.cm != null && legacy.Valid() && legacy.cm == null
    requires converted.Settled() && legacy.currentFrame == converted.currentFrame
    requires converted.Plays(out, Emitted(Collected(entities)))
    requires i < |entities|
    requires forall j :: 0 <= j < |entities| && j != i ==> entities[j].id != entities[i].id
    requires var e := entities[i];
      && e.id in converted.entities && IsConverted(converted.entities[e.id], e)
      && e.id in legacy.entities && e.startFrame == legacy.entities[e.id].startFrame
      && e.entries.value != [] && SameShape(e.entries.value, e.kind) && Aligned(e.entries.value, e.startFrame, e.kind)
      && IsLegacy(legacy.entities[e.id], e.entries.value, e.kind)
    ensures var e, f := entities[i], converted.currentFrame;
      Shown(converted.snapshots, e.id) == Shown(legacy.snapshots, e.id) <==>
        !(converted.entities[e.id].endFrame < f && legacy.entities[e.id].Alive(f))
  {
    var e, f := entities[i], converted.currentFrame;
    legacy.LegacyShowsLastRecorded(e.entries.value, e.startFrame, e.kind, e.id);
    LookupsAgree(e.entries.value, e.startFrame, e.kind, f);
    if converted.entities[e.id].Alive(f) {
      converted.ShownIsLastEmitted(out, Emitted(Collected(entities)), e.id);
      EmittedAreRecorded(entities, i, f);
    } else {
      converted.DeadIsNotShown(e.id);
    }
  }

  lemma {:induction false} LegacyStateAt<S>(id: uint32, e: Entity<S>, entries: seq<Entry<S>>, kind: Kind, frame: nat,
                                            slot: nat)
    requires entries != [] && IsLegacy(e, entries, kind)
    requires SameShape(entries, kind) && Aligned(entries, e.startFrame, kind)
    ensures StateAt(id, e, None, frame, slot) == LastAt(Positions(entries, e.startFrame, kind), frame)
  {
    hide Aligned, SameShape, Positions, LegacyStates, LastAt;
    LookupsAgree(entries, e.startFrame, kind, frame);
  }

  /** A cache with its manifest loaded and its first chunk requested. */
  method RequestFirstChunk<S(!new)>(files: map<nat, ChunkData<S>>, manifest: Manifest)
    returns (cm: Cache<ChunkData<S>>)
    ensures fresh(cm) && cm.WellFormed() && cm.Faithful() && cm.manifest == Some(manifest) && cm.file == files
    ensures cm.fetches[0] == 1 && cm.loading == {0} && cm.prefetching == None
  {
    cm := new Cache<ChunkData<S>>(map[]);
    cm.LoadManifest(manifest, files);
    assert cm.WellFormed() && cm.Faithful();
    cm.LoadChunk(0);
  }

  /** The answer to the first request: the chunk, if it can be read. */
  method ReceiveFirstChunk<S(!new)>(cm: Cache<ChunkData<S>>) returns (ok: bool)
    requires cm.WellFormed() && cm.Faithful() && cm.fetches[0] == 1
    modifies cm`loaded, cm`order, cm`accesses, cm`fetches, cm`loading
    ensures ok <==> 0 in cm.file
    ensures cm.WellFormed() && cm.Faithful() && cm.loading == old(cm.loading) - {0}
    ensures ok ==> 0 in cm.loaded && cm.loaded[0] == cm.file[0]
  {
    ok := 0 in cm.file;
    if ok {
      cm.ChunkArrived(0, cm.file[0]);
    } else {
      cm.FetchFailed(0);
    }
    assert cm.fetches[0] == 0;
    cm.LoadSettled(0);
  }

  /** Opens a converted recording: the manifest and the first chunk are loaded, then the engine starts with frame 0 of
      that chunk on screen. Without a readable first chunk opening fails. */
  method LoadRecording<S(!new)>(files: map<nat, ChunkData<S>>, manifest: Manifest, entities: map<uint32, Entity<S>>,
                                endFrame: nat, captureDelayMs: real, now: real) returns (r: Option<Engine<S>>)
    ensures r.Some? <==> 0 in files
    ensures r.Some? ==> var engine := r.value;
      && fresh(engine) && engine.cm != null && fresh(engine.cm) && engine.cm.file == files
      && engine.Valid() && engine.Complete() && !engine.isPlaying && engine.currentFrame == 0
      && engine.snapshots == Snapshots(entities, Some(files[0]), 0, 0)
      && engine.manifest == manifest && engine.entities == entities && engine.endFrame == endFrame
      && engine.captureDelayMs == captureDelayMs && engine.playbackSpeed == 10.0 && engine.lastTickTime == now
  {
    var cm := RequestFirstChunk(files, manifest);
    var ok := ReceiveFirstChunk(cm);
    if !ok {
      return None;
    }
    var engine := new Engine(cm, manifest, entities, endFrame, captureDelayMs, now);
    r := Some(engine);
  }

  /** The recording page: a converted recording is opened, sought to the start of its focus range if it has one, and
      played at the press of a key. Every frame up to the end can be where it starts, and it plays unless that is the
      end. */
  method OpenAndPlay<S(!new)>(out: Output<S>, files: map<nat, ChunkData<S>>, entities: map<uint32, Entity<S>>,
                              captureDelayMs: real, focusStart: Option<nat>, now: real,
                              ghost states: seq<EntityState<S>>)
    returns (r: Option<Engine<S>>)
    requires out.chunkSize > 0 && Representable(out.endFrame, out.chunkSize)
    requires IsOutput(out, out.endFrame, out.chunkSize, states) && ServedFrom(files, out.chunks)
    ensures r.Some? <==> 0 in files
    ensures r.Some? ==> var engine := r.value; var start := if focusStart.Some? then focusStart.value else 0;
      && engine.cm != null && engine.Valid() && engine.Complete() && engine.Plays(out, states)
      && engine.currentFrame == (if start > out.endFrame then out.endFrame else start)
      && (engine.isPlaying <==> start < out.endFrame)
      && engine.entities == entities && engine.captureDelayMs == captureDelayMs && engine.playbackSpeed == 10.0
  {
    hide *;
    r := LoadRecording(files, Manifest(out.chunkSize, out.chunkCount), entities, out.endFrame, captureDelayMs, now);
    if r.Some? {
      var engine := r.value;
      engine.PlaysOutput(out, states);
      if focusStart.Some? {
        engine.SeekTo(focusStart.value);
      }
      engine.Play(now);
    }
  }

  datatype Command =
    | Tick(now: real)
    | SeekTo(frame: int)
    | Play(now: real)
    | Pause
    | SetSpeed(multiplier: real, now: real)

  datatype Answer =
    | ChunkArrived(k: nat)
    | FetchFailed(k: nat)
    | LoadSettled(k: nat)

  /** The code after an await. */
  datatype Resumption =
    | SeekResolved(frame: nat)
    | EnsureResolved(frame: nat)
    | PrefetchSettled

  datatype Step = Command(command: Command) | Network(answer: Answer) | Resumption(resumption: Resumption)

  /** What starts a task of the browser. */
  datatype Start = Command(command: Command) | Answered(k: nat) | Failed(k: nat)

  datatype Task = Task(start: Start, resumptions: seq<Resumption>)

  /** A request is answered by an error, or by what is no chunk. */
  predicate GetsNothing(task: Task, files: set<nat>) {
    task.start.Failed? || (task.start.Answered? && task.start.k !in files)
  }

  /** The files decode, chunk by chunk, from this output. */
  ghost predicate ServedFrom<S>(file: map<nat, ChunkData<S>>, chunks: seq<Chunk<S>>) {
    forall k <- file :: k < |chunks| && Filled(file[k], chunks[k], |chunks[k].frames|, 0)
  }

  /** Taking floor(acc / interval) whole frames off an accumulator leaves less than one, and moves exactly
      their time into the frames due. */
  lemma TakeWholeFrames(acc: real, interval: real, due: nat)
    requires acc >= 0.0 && interval > 0.0
    ensures var n := (acc / interval).Floor;
      && n >= 0
      && 0.0 <= acc - n as real * interval < interval
      && acc + due as real * interval == acc - n as real * interval + (due + n) as real * interval
  {
    var q := acc / interval;
    var n := q.Floor;
    var f := q - n as real;
    assert q * interval == acc;
    assert f * interval == acc - n as real * interval;
    Between(f, acc - n as real * interval, interval);
    NonNegative(acc, interval);
    assert (due + n) as real * interval == due as real * interval + n as real * interval;
  }

  /** The interval is the capture delay over the speed. */
  lemma IntervalMeans(kept: real, acc: real, due: real, delay: real, speed: real)
    requires speed > 0.0
    ensures kept == acc + due * (delay / speed) ==> (kept - acc) * speed == due * delay
    ensures acc < delay / speed ==> acc * speed < delay
  {
    var interval := delay / speed;
    assert interval * speed == delay;
    assert due * interval * speed == due * (interval * speed);
    if acc < interval {
      assert (interval - acc) * speed > 0.0;
      assert (interval - acc) * speed == interval * speed - acc * speed;
    }
  }

  lemma Between(f: real, part: real, interval: real)
    requires 0.0 <= f < 1.0 && interval > 0.0 && f * interval == part
    ensures 0.0 <= part < interval
  {
    assert (1.0 - f) * interval == interval - part;
    assert (1.0 - f) * interval > 0.0;
  }

  lemma NonNegative(acc: real, interval: real)
    requires acc >= 0.0 && interval > 0.0
    ensures acc / interval >= 0.0
  {}
}
