/** Writing a recording as fixed-size chunks of frames: the streaming converter
    (internal/storage/streaming_converter.go), the whole-recording writer
    (internal/storage/writer_protobuf_v1.go), and the browser's chunk decoder
    (ui/src/data/decoders/protobufDecoder.ts). */
module ChunkConverter {
  import opened Common
  import opened RecordingParser
  import opened ChunkBucket

  datatype EntityState<S> = EntityState(entityId: uint32, frameNum: uint32, state: S)
  datatype Frame<S> = Frame(frameNum: uint32, entities: seq<EntityState<S>>)
  datatype Chunk<S> = Chunk(index: uint32, startFrame: uint32, frameCount: uint32, frames: seq<Frame<S>>)

  datatype EntityPositions<S> = EntityPositions(entityId: uint32, positions: seq<Position<S>>)

  // ----- Chunk arithmetic, in uint32

  function TotalFrames(endFrame: uint32): uint32 {
    Wrap32(endFrame + 1)
  }

  /** (totalFrames + chunkSize - 1), each step wrapping. */
  function RoundedUp(endFrame: uint32, chunkSize: uint32): uint32 {
    Wrap32(Wrap32(TotalFrames(endFrame) + chunkSize) - 1)
  }

  lemma ProductNotNegative(a: nat, b: nat)
    ensures a * b >= 0
  {}

  lemma NegativeTimes(q: int, d: nat)
    ensures q < 0 ==> q * d + d <= 0
  {
    if q < 0 {
      ProductNotNegative(-q - 1, d);
      assert q * d + d == -((-q - 1) * d);
    }
  }

  lemma AtMostTimes(q: nat, d: nat)
    requires d > 0
    ensures q <= q * d
  {
    ProductNotNegative(q, d - 1);
    assert q * d == q * (d - 1) + q;
  }

  lemma BetweenMultiples(n: nat, d: nat, q: int)
    requires d > 0 && q * d <= n < q * d + d
    ensures 0 <= q <= n
  {
    NegativeTimes(q, d);
    AtMostTimes(q, d);
  }

  lemma QuotientAtMost(n: nat, d: nat)
    requires d > 0
    ensures 0 <= n / d <= n
  {
    DivisionBounds(n, d);
    BetweenMultiples(n, d, n / d);
  }

  function ChunkCount(endFrame: uint32, chunkSize: uint32): (n: uint32)
    requires chunkSize > 0
    ensures n > 0
  {
    QuotientAtMost(RoundedUp(endFrame, chunkSize), chunkSize);
    var n := RoundedUp(endFrame, chunkSize) / chunkSize;
    if n == 0 then 1 else n
  }

  function ChunkStart(k: uint32, chunkSize: uint32): uint32 {
    Wrap32(k * chunkSize)
  }

  function ChunkEnd(k: uint32, chunkSize: uint32, totalFrames: uint32): uint32 {
    var end := Wrap32(ChunkStart(k, chunkSize) + chunkSize);
    if end > totalFrames then totalFrames else end
  }

  /** Frame f falls into the range of chunk k. */
  predicate InChunk(f: uint32, k: uint32, endFrame: uint32, chunkSize: uint32)
    requires chunkSize > 0
  {
    && k < ChunkCount(endFrame, chunkSize)
    && ChunkStart(k, chunkSize) <= f < ChunkEnd(k, chunkSize, TotalFrames(endFrame))
  }

  /** The chunk ranges partition [0, endFrame], each frame lying in the chunk the browser looks it up in. */
  ghost predicate Partitions(endFrame: uint32, chunkSize: uint32)
    requires chunkSize > 0
  {
    forall f: uint32, k: uint32 :: InChunk(f, k, endFrame, chunkSize) <==> f <= endFrame && k == f / chunkSize
  }

  /** The sizes for which the wrapping arithmetic is harmless. */
  predicate Representable(endFrame: uint32, chunkSize: uint32) {
    endFrame + 1 < TWO_32 && (endFrame + chunkSize < TWO_32 || endFrame < chunkSize)
  }

  lemma DivisionBounds(f: nat, d: nat)
    requires d > 0
    ensures f / d * d <= f < f / d * d + d
  {}

  lemma ScaleMonotone(a: nat, b: nat, d: nat)
    requires a <= b
    ensures a * d <= b * d
  {}

  lemma QuotientIs(f: nat, d: nat, k: nat)
    requires d > 0 && k * d <= f < k * d + d
    ensures f / d == k
  {
    DivisionBounds(f, d);
    var q := f / d;
    if q < k {
      ScaleMonotone(q + 1, k, d);
    } else if q > k {
      ScaleMonotone(k + 1, q, d);
    }
  }

  lemma RoundedUpValue(endFrame: uint32, chunkSize: uint32)
    requires chunkSize > 0
    ensures RoundedUp(endFrame, chunkSize) == endFrame + chunkSize - if endFrame + chunkSize < TWO_32 then 0 else TWO_32
  {}

  lemma ChunkCountValue(endFrame: uint32, chunkSize: uint32)
    requires chunkSize > 0
    ensures endFrame + chunkSize < TWO_32 ==> ChunkCount(endFrame, chunkSize) == endFrame / chunkSize + 1
    ensures endFrame + chunkSize >= TWO_32 ==> ChunkCount(endFrame, chunkSize) == 1
  {
    var sum := RoundedUp(endFrame, chunkSize);
    RoundedUpValue(endFrame, chunkSize);
    DivisionBounds(endFrame, chunkSize);
    var q := if endFrame + chunkSize < TWO_32 then endFrame / chunkSize + 1 else 0;
    assert q * chunkSize <= sum < q * chunkSize + chunkSize;
    QuotientIs(sum, chunkSize, q);
  }

  /** Without wrap-around, chunk k ranges over the next chunkSize frames, cut off at the end. */
  lemma ChunkRange(k: uint32, endFrame: uint32, chunkSize: uint32)
    requires chunkSize > 0 && endFrame + chunkSize < TWO_32 && k <= endFrame / chunkSize
    ensures ChunkStart(k, chunkSize) == k * chunkSize <= endFrame
    ensures ChunkEnd(k, chunkSize, TotalFrames(endFrame))
         == if k * chunkSize + chunkSize > endFrame + 1 then endFrame + 1 else k * chunkSize + chunkSize
  {
    ScaleMonotone(k, endFrame / chunkSize, chunkSize);
    DivisionBounds(endFrame, chunkSize);
  }

  lemma InChunkMeaning(f: uint32, k: uint32, endFrame: uint32, chunkSize: uint32)
    requires chunkSize > 0 && Representable(endFrame, chunkSize)
    ensures InChunk(f, k, endFrame, chunkSize) <==> f <= endFrame && k == f / chunkSize
  {
    ChunkCountValue(endFrame, chunkSize);
    if endFrame + chunkSize < TWO_32 {
      if f <= endFrame && k == f / chunkSize {
        QuotientMonotone(f, endFrame, chunkSize);
        ChunkRange(k, endFrame, chunkSize);
        DivisionBounds(f, chunkSize);
      }
      if InChunk(f, k, endFrame, chunkSize) {
        ChunkRange(k, endFrame, chunkSize);
        QuotientIs(f, chunkSize, k);
      }
    } else if f <= endFrame {
      QuotientIs(f, chunkSize, 0);
    }
  }

  lemma QuotientMonotone(f: nat, g: nat, d: nat)
    requires d > 0 && f <= g
    ensures f / d <= g / d
  {
    DivisionBounds(f, d);
    DivisionBounds(g, d);
    if f / d > g / d {
      ScaleMonotone(g / d + 1, f / d, d);
    }
  }

  /** The chunk ranges partition the recording exactly for the representable sizes: the arithmetic may wrap
      only if everything fits in one chunk, and never on the total frame count. */
  lemma PartitionsExactly(endFrame: uint32, chunkSize: uint32)
    requires chunkSize > 0
    ensures Partitions(endFrame, chunkSize) <==> Representable(endFrame, chunkSize)
  {
    if Representable(endFrame, chunkSize) {
      forall f: uint32, k: uint32 {
        InChunkMeaning(f, k, endFrame, chunkSize);
      }
    } else {
      ChunkCountValue(endFrame, chunkSize);
      var f := if endFrame + 1 == TWO_32 then 0 else chunkSize;
      assert f <= endFrame && !InChunk(f, f / chunkSize, endFrame, chunkSize);
    }
  }

  /** Chunks that exist never have their bounds crossed, whatever wraps. */
  lemma ChunkBoundsOrdered(k: uint32, endFrame: uint32, chunkSize: uint32)
    requires chunkSize > 0 && k < ChunkCount(endFrame, chunkSize)
    ensures ChunkStart(k, chunkSize) <= ChunkEnd(k, chunkSize, TotalFrames(endFrame))
  {
    ChunkCountValue(endFrame, chunkSize);
    if endFrame + chunkSize < TWO_32 {
      ChunkRange(k, endFrame, chunkSize);
    }
  }

  // ----- The streaming path

  /** The states of frame f, in order. */
  function Grouped<S>(states: seq<EntityState<S>>, f: uint32): seq<EntityState<S>> {
    if states == [] then []
    else
      var n := |states| - 1;
      Grouped(states[..n], f) + if states[n].frameNum == f then [states[n]] else []
  }

  /** The frame number is only needed in the temporary files. */
  function Clear<S>(s: EntityState<S>): EntityState<S> {
    EntityState(s.entityId, 0, s.state)
  }

  function Cleared<S>(states: seq<EntityState<S>>): seq<EntityState<S>> {
    seq(|states|, i requires 0 <= i < |states| => Clear(states[i]))
  }

  function AtFrame<S>(states: seq<EntityState<S>>, f: uint32): seq<EntityState<S>> {
    Cleared(Grouped(states, f))
  }

  /** The chunk's frames are consecutive and cover its range. */
  ghost predicate ChunkShape<S>(chunk: Chunk<S>, k: uint32, endFrame: uint32, chunkSize: uint32)
    requires chunkSize > 0
  {
    && chunk.index == k
    && chunk.startFrame == ChunkStart(k, chunkSize)
    && chunk.startFrame + chunk.frameCount == ChunkEnd(k, chunkSize, TotalFrames(endFrame))
    && |chunk.frames| == chunk.frameCount
    && forall i :: 0 <= i < |chunk.frames| ==> chunk.frames[i].frameNum == chunk.startFrame + i
  }

  /** Every frame holds the given states of that frame, in order. */
  ghost predicate Holds<S>(chunk: Chunk<S>, states: seq<EntityState<S>>) {
    forall frame <- chunk.frames :: frame.entities == AtFrame(states, frame.frameNum)
  }

  lemma GroupedNext<S>(states: seq<EntityState<S>>, i: nat, f: uint32)
    requires i < |states|
    ensures Grouped(states[..i + 1], f) == Grouped(states[..i], f) + if states[i].frameNum == f then [states[i]] else []
  {
    assert states[..i + 1][..i] == states[..i];
  }

  function Group<S>(frameMap: map<uint32, seq<EntityState<S>>>, f: uint32): seq<EntityState<S>> {
    if f in frameMap then frameMap[f] else []
  }

  ghost predicate IsGrouping<S>(frameMap: map<uint32, seq<EntityState<S>>>, states: seq<EntityState<S>>) {
    forall f: uint32 {:trigger Group(frameMap, f)} :: Group(frameMap, f) == Grouped(states, f)
  }

  lemma GroupNext<S>(frameMap: map<uint32, seq<EntityState<S>>>, states: seq<EntityState<S>>, i: nat)
    requires i < |states| && IsGrouping(frameMap, states[..i])
    ensures var f := states[i].frameNum;
      IsGrouping(frameMap[f := Group(frameMap, f) + [states[i]]], states[..i + 1])
  {
    var f, prefix := states[i].frameNum, states[..i + 1];
    var next := frameMap[f := Group(frameMap, f) + [states[i]]];
    forall f: uint32
      ensures Group(next, f) == Grouped(prefix, f)
    {
      GroupedNext(states, i, f);
      assert Group(frameMap, f) == Grouped(states[..i], f);
    }
  }

  method GroupByFrame<S>(states: seq<EntityState<S>>) returns (frameMap: map<uint32, seq<EntityState<S>>>)
    ensures IsGrouping(frameMap, states)
  {
    frameMap := map[];
    for i := 0 to |states|
      invariant IsGrouping(frameMap, states[..i])
    {
      var s := states[i];
      GroupNext(frameMap, states, i);
      frameMap := frameMap[s.frameNum := Group(frameMap, s.frameNum) + [s]];
    }
    assert states[..|states|] == states;
  }

  method ClearAll<S>(states: seq<EntityState<S>>) returns (cleared: seq<EntityState<S>>)
    ensures cleared == Cleared(states)
  {
    cleared := [];
    for j := 0 to |states|
      invariant cleared == Cleared(states[..j])
    {
      cleared := cleared + [Clear(states[j])];
    }
    assert states[..|states|] == states;
  }

  method AssembleChunk<S>(states: seq<EntityState<S>>, k: uint32, endFrame: uint32, chunkSize: uint32)
    returns (chunk: Chunk<S>)
    requires chunkSize > 0 && k < ChunkCount(endFrame, chunkSize)
    ensures ChunkShape(chunk, k, endFrame, chunkSize) && Holds(chunk, states)
  {
    ChunkBoundsOrdered(k, endFrame, chunkSize);
    var startFrame, end := ChunkStart(k, chunkSize), ChunkEnd(k, chunkSize, TotalFrames(endFrame));
    var frameMap := GroupByFrame(states);
    var frames: seq<Frame<S>> := [];
    for frameNum := startFrame to end
      invariant |frames| == frameNum - startFrame
      invariant forall i :: 0 <= i < |frames| ==> frames[i] == Frame(startFrame + i, AtFrame(states, startFrame + i))
    {
      var entities: seq<EntityState<S>> := [];
      assert Group(frameMap, frameNum) == Grouped(states, frameNum);
      if frameNum in frameMap {
        entities := ClearAll(frameMap[frameNum]);
      }
      frames := frames + [Frame(frameNum, entities)];
    }
    chunk := Chunk(k, startFrame, end - startFrame, frames);
  }

  /** An entity of the recording; without a positions array it contributes no states. */
  datatype RawEntity<S> = RawEntity(id: uint32, startFrame: uint32, kind: Kind, entries: Option<seq<Entry<S>>>)

  function Collected<S>(entities: seq<RawEntity<S>>): seq<EntityPositions<S>> {
    if entities == [] then []
    else
      var n := |entities| - 1;
      var e := entities[n];
      Collected(entities[..n])
      + if e.entries.None? then [] else [EntityPositions(e.id, Positions(e.entries.value, e.startFrame, e.kind))]
  }

  function StatesOf<S>(ep: EntityPositions<S>): seq<EntityState<S>> {
    seq(|ep.positions|, i requires 0 <= i < |ep.positions| =>
      EntityState(ep.entityId, ep.positions[i].frame, ep.positions[i].state))
  }

  /** Everything the parser emits, in order. */
  function Emitted<S>(eps: seq<EntityPositions<S>>): seq<EntityState<S>> {
    if eps == [] then [] else Emitted(eps[..|eps| - 1]) + StatesOf(eps[|eps| - 1])
  }

  function InBucket<S>(states: seq<EntityState<S>>, k: uint32, chunkSize: uint32): seq<EntityState<S>>
    requires chunkSize > 0
  {
    if states == [] then []
    else
      var n := |states| - 1;
      InBucket(states[..n], k, chunkSize) + if states[n].frameNum / chunkSize == k then [states[n]] else []
  }

  lemma GroupedLast<S>(states: seq<EntityState<S>>, s: EntityState<S>, f: uint32, keep: bool)
    requires s.frameNum == f ==> keep
    ensures Grouped(states + if keep then [s] else [], f) == Grouped(states, f) + if s.frameNum == f then [s] else []
  {
    if keep {
      assert (states + [s])[..|states|] == states;
    } else {
      assert states + [] == states;
    }
  }

  /** A frame's states are all in the bucket of its chunk, in the order they were emitted. */
  lemma {:induction false} BucketHoldsFrame<S>(states: seq<EntityState<S>>, f: uint32, k: uint32, chunkSize: uint32)
    requires chunkSize > 0 && f / chunkSize == k
    ensures Grouped(InBucket(states, k, chunkSize), f) == Grouped(states, f)
  {
    if states != [] {
      var n := |states| - 1;
      var keep := states[n].frameNum / chunkSize == k;
      BucketHoldsFrame(states[..n], f, k, chunkSize);
      GroupedLast(InBucket(states[..n], k, chunkSize), states[n], f, keep);
    }
  }

  lemma InBucketNext<S>(states: seq<EntityState<S>>, s: EntityState<S>, k: uint32, chunkSize: uint32)
    requires chunkSize > 0
    ensures InBucket(states + [s], k, chunkSize)
         == InBucket(states, k, chunkSize) + if s.frameNum / chunkSize == k then [s] else []
  {
    assert (states + [s])[..|states|] == states;
  }

  /** Bucket k holds the emitted states of chunk k. */
  ghost predicate Bucketed<S(!new)>(bucket: Bucket<EntityState<S>>, emitted: seq<EntityState<S>>, chunkSize: uint32)
    requires chunkSize > 0
    reads bucket
  {
    forall k :: bucket.Records(k) == InBucket(emitted, k, chunkSize)
  }

  datatype Metadata = Metadata(worldName: string, missionName: string, endFrame: uint32)
  datatype Output<S> = Output(endFrame: uint32, chunkSize: uint32, chunkCount: uint32, chunks: seq<Chunk<S>>)
  datatype ConvertError = UnknownVersion | BucketUnreadable

  /** The output has one chunk per index, and they hold the given states. */
  ghost predicate IsOutput<S>(out: Output<S>, endFrame: uint32, chunkSize: uint32, states: seq<EntityState<S>>)
    requires chunkSize > 0
  {
    && out.endFrame == endFrame && out.chunkSize == chunkSize
    && out.chunkCount == |out.chunks| == ChunkCount(endFrame, chunkSize)
    && forall k :: 0 <= k < |out.chunks| ==>
         ChunkShape(out.chunks[k], k, endFrame, chunkSize) && Holds(out.chunks[k], states)
  }

  const DEFAULT_CHUNK_SIZE: uint32 := 300

  class Converter<S(!new)> {
    const chunkSize: uint32

    constructor (chunkSize: uint32)
      ensures this.chunkSize == if chunkSize == 0 then 300 else chunkSize
    {
      this.chunkSize := if chunkSize == 0 then DEFAULT_CHUNK_SIZE else chunkSize;
    }

    method BucketState(bucket: Bucket<EntityState<S>>, state: EntityState<S>, ghost emitted: seq<EntityState<S>>)
      requires chunkSize > 0 && bucket.Valid() && Bucketed(bucket, emitted, chunkSize)
      modifies bucket
      ensures bucket.Valid() && Bucketed(bucket, emitted + [state], chunkSize)
    {
      var chunkIdx := state.frameNum / chunkSize;
      bucket.Write(chunkIdx, state);
      forall k
        ensures bucket.Records(k) == InBucket(emitted + [state], k, chunkSize)
      {
        InBucketNext(emitted, state, k, chunkSize);
        assert bucket.Records(k) == if k == chunkIdx then old(bucket.Records(k)) + [state] else old(bucket.Records(k));
      }
    }

    /** Writes each of an entity's states to the bucket of its chunk. */
    method BucketEntity(bucket: Bucket<EntityState<S>>, ep: EntityPositions<S>, ghost emitted: seq<EntityState<S>>)
      requires chunkSize > 0 && bucket.Valid() && Bucketed(bucket, emitted, chunkSize)
      modifies bucket
      ensures bucket.Valid() && Bucketed(bucket, emitted + StatesOf(ep), chunkSize)
    {
      ghost var states := emitted;
      for i := 0 to |ep.positions|
        invariant bucket.Valid() && Bucketed(bucket, states, chunkSize)
        invariant states == emitted + StatesOf(ep)[..i]
      {
        var pos := ep.positions[i];
        BucketState(bucket, EntityState(ep.entityId, pos.frame, pos.state), states);
        states := states + [StatesOf(ep)[i]];
      }
      assert StatesOf(ep)[..|ep.positions|] == StatesOf(ep);
    }

    /** The single pass over the recording. */
    method BucketRecording(codec: Codec<EntityState<S>>, entities: seq<RawEntity<S>>)
      returns (bucket: Bucket<EntityState<S>>)
      requires chunkSize > 0 && Lossless(codec)
      requires forall e <- entities :: e.entries.Some? ==> Terminates(e.entries.value, e.kind)
      ensures fresh(bucket) && bucket.Valid()
      ensures Bucketed(bucket, Emitted(Collected(entities)), chunkSize)
    {
      bucket := new Bucket(codec);
      ghost var eps: seq<EntityPositions<S>> := [];
      for i := 0 to |entities|
        invariant fresh(bucket) && bucket.Valid() && eps == Collected(entities[..i])
        invariant Bucketed(bucket, Emitted(eps), chunkSize)
      {
        var e := entities[i];
        assert e in entities && entities[..i + 1][..i] == entities[..i];
        if e.entries.Some? {
          var positions := CollectEntityPositions(e.entries.value, e.startFrame, e.kind);
          var ep := EntityPositions(e.id, positions);
          BucketEntity(bucket, ep, Emitted(eps));
          assert (eps + [ep])[..|eps|] == eps;
          eps := eps + [ep];
        }
      }
      assert entities[..|entities|] == entities;
    }

    method AssembleChunks(bucket: Bucket<EntityState<S>>, endFrame: uint32, ghost emitted: seq<EntityState<S>>)
      returns (r: Result<seq<Chunk<S>>, ConvertError>)
      requires chunkSize > 0 && bucket.Valid() && bucket.writers == map[] && Bucketed(bucket, emitted, chunkSize)
      ensures r.Ok? && |r.value| == ChunkCount(endFrame, chunkSize)
      ensures forall k :: 0 <= k < |r.value| ==>
                ChunkShape(r.value[k], k, endFrame, chunkSize) && Holds(r.value[k], emitted)
    {
      var chunkCount := ChunkCount(endFrame, chunkSize);
      var chunks: seq<Chunk<S>> := [];
      for k := 0 to chunkCount
        invariant |chunks| == k
        invariant forall j :: 0 <= j < k ==> ChunkShape(chunks[j], j, endFrame, chunkSize) && Holds(chunks[j], emitted)
      {
        var states := bucket.Read(k);
        if states.Err? {
          return Err(BucketUnreadable);
        }
        var chunk := AssembleChunk(states.value, k, endFrame, chunkSize);
        BucketChunk(chunk, emitted, k, endFrame, chunkSize);
        chunks := chunks + [chunk];
      }
      r := Ok(chunks);
    }

    method Convert(codec: Codec<EntityState<S>>, meta: Metadata, entities: seq<RawEntity<S>>)
      returns (r: Result<Output<S>, ConvertError>)
      requires chunkSize > 0 && Lossless(codec)
      requires forall e <- entities :: e.entries.Some? ==> Terminates(e.entries.value, e.kind)
      ensures r.Err? <==> meta.worldName == "" || meta.missionName == "" || meta.endFrame == 0
      ensures r.Ok? ==> IsOutput(r.value, meta.endFrame, chunkSize, Emitted(Collected(entities)))
    {
      var bucket := BucketRecording(codec, entities);
      if meta.worldName == "" || meta.missionName == "" || meta.endFrame == 0 {
        return Err(UnknownVersion);
      }
      bucket.Flush();
      var chunks := AssembleChunks(bucket, meta.endFrame, Emitted(Collected(entities)));
      if chunks.Err? {
        return Err(BucketUnreadable);
      }
      r := Ok(Output(meta.endFrame, chunkSize, |chunks.value|, chunks.value));
    }
  }

  /** Every frame of chunk k is found in bucket k. */
  lemma BucketChunk<S>(chunk: Chunk<S>, states: seq<EntityState<S>>, k: uint32, endFrame: uint32, chunkSize: uint32)
    requires chunkSize > 0 && k < ChunkCount(endFrame, chunkSize)
    requires ChunkShape(chunk, k, endFrame, chunkSize) && Holds(chunk, InBucket(states, k, chunkSize))
    ensures Holds(chunk, states)
  {
    forall frame <- chunk.frames
      ensures frame.entities == AtFrame(states, frame.frameNum)
    {
      FrameInItsChunk(frame.frameNum, k, endFrame, chunkSize);
      BucketHoldsFrame(states, frame.frameNum, k, chunkSize);
    }
  }

  /** Within a chunk's bounds division finds the chunk again, whether or not the sizes are representable. */
  lemma FrameInItsChunk(f: uint32, k: uint32, endFrame: uint32, chunkSize: uint32)
    requires chunkSize > 0 && InChunk(f, k, endFrame, chunkSize)
    ensures f / chunkSize == k
  {
    ChunkCountValue(endFrame, chunkSize);
    if endFrame + chunkSize < TWO_32 {
      ChunkRange(k, endFrame, chunkSize);
    }
    QuotientIs(f, chunkSize, k);
  }

  // ----- The whole-recording writer

  /** The first position recorded for frame f. */
  function FirstAt<S>(positions: seq<Position<S>>, f: uint32): Option<S> {
    if positions == [] then None
    else if positions[0].frame == f then Some(positions[0].state)
    else FirstAt(positions[1..], f)
  }

  method GetEntityStateAtFrame<S>(ep: EntityPositions<S>, f: uint32) returns (r: Option<EntityState<S>>)
    ensures r == match FirstAt(ep.positions, f) case None => None case Some(s) => Some(EntityState(ep.entityId, 0, s))
  {
    for i := 0 to |ep.positions|
      invariant FirstAt(ep.positions, f) == FirstAt(ep.positions[i..], f)
    {
      var pos := ep.positions[i];
      if pos.frame == f {
        return Some(EntityState(ep.entityId, 0, pos.state));
      }
    }
    r := None;
  }

  function FirstState<S>(ep: EntityPositions<S>, f: uint32): seq<EntityState<S>> {
    match FirstAt(ep.positions, f)
    case None => []
    case Some(s) => [EntityState(ep.entityId, 0, s)]
  }

  /** At most one state per entity, in entity order. */
  function WholeAt<S>(eps: seq<EntityPositions<S>>, f: uint32): seq<EntityState<S>> {
    if eps == [] then [] else WholeAt(eps[..|eps| - 1], f) + FirstState(eps[|eps| - 1], f)
  }

  method BuildChunk<S>(eps: seq<EntityPositions<S>>, endFrame: uint32, chunkSize: uint32, k: uint32)
    returns (chunk: Chunk<S>)
    requires chunkSize > 0 && k < ChunkCount(endFrame, chunkSize)
    ensures ChunkShape(chunk, k, endFrame, chunkSize)
    ensures forall frame <- chunk.frames :: frame.entities == WholeAt(eps, frame.frameNum)
  {
    ChunkBoundsOrdered(k, endFrame, chunkSize);
    var startFrame, end := ChunkStart(k, chunkSize), ChunkEnd(k, chunkSize, TotalFrames(endFrame));
    var frames: seq<Frame<S>> := [];
    for frameNum := startFrame to end
      invariant |frames| == frameNum - startFrame
      invariant forall i :: 0 <= i < |frames| ==> frames[i] == Frame(startFrame + i, WholeAt(eps, startFrame + i))
    {
      var entities: seq<EntityState<S>> := [];
      for j := 0 to |eps|
        invariant entities == WholeAt(eps[..j], frameNum)
      {
        assert eps[..j + 1][..j] == eps[..j];
        var state := GetEntityStateAtFrame(eps[j], frameNum);
        if state.Some? {
          entities := entities + [state.value];
        }
      }
      assert eps[..|eps|] == eps;
      frames := frames + [Frame(frameNum, entities)];
    }
    chunk := Chunk(k, startFrame, end - startFrame, frames);
  }

  // ----- The fast form refines the simple one

  /** No frame of the recording is recorded twice for the entity. */
  ghost predicate DistinctFrames<S>(ep: EntityPositions<S>, endFrame: uint32) {
    forall i, j :: 0 <= i < j < |ep.positions| && ep.positions[i].frame == ep.positions[j].frame ==>
      ep.positions[i].frame > endFrame
  }

  lemma {:induction false} GroupedConcat<S>(s: seq<EntityState<S>>, t: seq<EntityState<S>>, f: uint32)
    ensures Grouped(s + t, f) == Grouped(s, f) + Grouped(t, f)
  {
    if t == [] {
      assert s + t == s;
    } else {
      var n := |t| - 1;
      GroupedConcat(s, t[..n], f);
      assert (s + t)[..|s + t| - 1] == s + t[..n] && (s + t)[|s + t| - 1] == t[n];
      var last := if t[n].frameNum == f then [t[n]] else [];
      assert Grouped(s + t, f) == Grouped(s + t[..n], f) + last;
      assert Grouped(t, f) == Grouped(t[..n], f) + last;
    }
  }

  lemma AtFrameConcat<S>(s: seq<EntityState<S>>, t: seq<EntityState<S>>, f: uint32)
    ensures AtFrame(s + t, f) == AtFrame(s, f) + AtFrame(t, f)
  {
    GroupedConcat(s, t, f);
  }

  /** What the streaming path keeps of one entity at frame f, against what the simple writer keeps. */
  lemma {:induction false} EntityAtFrame<S>(ep: EntityPositions<S>, f: uint32)
    ensures var fast, simple := AtFrame(StatesOf(ep), f), FirstState(ep, f);
      && |fast| >= |simple|
      && (|fast| == |simple| ==> fast == simple)
      && (|fast| == |simple| <==>
            forall i, j :: 0 <= i < j < |ep.positions| && ep.positions[i].frame == ep.positions[j].frame ==>
              ep.positions[i].frame != f)
    decreases |ep.positions|
  {
    if ep.positions != [] {
      var head, tail := ep.positions[0], EntityPositions(ep.entityId, ep.positions[1..]);
      var first := EntityState(ep.entityId, head.frame, head.state);
      EntityAtFrame(tail, f);
      assert StatesOf(ep) == [first] + StatesOf(tail);
      AtFrameConcat([first], StatesOf(tail), f);
      GroupedNext([first], 0, f);
      assert [first][..0] == [] && [first][..1] == [first];
      NoStateAtFrame(tail, f);
      assert forall i :: 0 <= i < |tail.positions| ==> tail.positions[i] == ep.positions[i + 1];
    }
  }

  lemma {:induction false} NoStateAtFrame<S>(ep: EntityPositions<S>, f: uint32)
    ensures AtFrame(StatesOf(ep), f) == [] <==> forall i :: 0 <= i < |ep.positions| ==> ep.positions[i].frame != f
    decreases |ep.positions|
  {
    if ep.positions != [] {
      var n := |ep.positions| - 1;
      var init := EntityPositions(ep.entityId, ep.positions[..n]);
      NoStateAtFrame(init, f);
      assert StatesOf(ep)[..n] == StatesOf(init);
    }
  }

  lemma {:induction false} FrameAgrees<S>(eps: seq<EntityPositions<S>>, f: uint32)
    ensures var fast, simple := AtFrame(Emitted(eps), f), WholeAt(eps, f);
      && |fast| >= |simple|
      && (fast == simple <==> |fast| == |simple|)
      && (|fast| == |simple| <==> forall ep <- eps :: |AtFrame(StatesOf(ep), f)| == |FirstState(ep, f)|)
  {
    if eps != [] {
      var n := |eps| - 1;
      FrameAgrees(eps[..n], f);
      EntityAtFrame(eps[n], f);
      AtFrameConcat(Emitted(eps[..n]), StatesOf(eps[n]), f);
      assert eps == eps[..n] + [eps[n]];
    }
  }

  /** Both writers put the same states, in the same order, into every frame of the recording. */
  ghost predicate SameFrames<S>(eps: seq<EntityPositions<S>>, endFrame: uint32) {
    forall f: uint32 :: f <= endFrame ==> AtFrame(Emitted(eps), f) == WholeAt(eps, f)
  }

  /** The streaming converter and the whole-recording writer produce the same frames exactly when no entity
      records a frame of the recording twice. */
  lemma StreamingEqualsWhole<S>(eps: seq<EntityPositions<S>>, endFrame: uint32)
    ensures SameFrames(eps, endFrame) <==> forall ep <- eps :: DistinctFrames(ep, endFrame)
  {
    if forall ep <- eps :: DistinctFrames(ep, endFrame) {
      forall f: uint32 | f <= endFrame {
        DistinctMeansAgreement(eps, endFrame, f);
      }
    }
    if SameFrames(eps, endFrame) {
      forall ep <- eps {
        AgreementMeansDistinct(eps, ep, endFrame);
      }
    }
  }

  /** What the whole-recording writer writes: one chunk per index, each frame with at most one state per entity. */
  ghost predicate IsWhole<S>(chunks: seq<Chunk<S>>, eps: seq<EntityPositions<S>>, endFrame: uint32, chunkSize: uint32)
    requires chunkSize > 0
  {
    && |chunks| == ChunkCount(endFrame, chunkSize)
    && forall k :: 0 <= k < |chunks| ==> IsWholeChunk(chunks[k], eps, k, endFrame, chunkSize)
  }

  ghost predicate IsWholeChunk<S>(chunk: Chunk<S>, eps: seq<EntityPositions<S>>, k: uint32, endFrame: uint32,
                                  chunkSize: uint32)
    requires chunkSize > 0
  {
    && ChunkShape(chunk, k, endFrame, chunkSize)
    && forall frame <- chunk.frames :: frame.entities == WholeAt(eps, frame.frameNum)
  }

  method WriteChunks<S>(eps: seq<EntityPositions<S>>, endFrame: uint32, chunkSize: uint32)
    returns (chunks: seq<Chunk<S>>)
    requires chunkSize > 0
    ensures IsWhole(chunks, eps, endFrame, chunkSize)
  {
    var chunkCount := ChunkCount(endFrame, chunkSize);
    chunks := [];
    for k := 0 to chunkCount
      invariant |chunks| == k
      invariant forall j :: 0 <= j < k ==> IsWholeChunk(chunks[j], eps, j, endFrame, chunkSize)
    {
      var chunk := BuildChunk(eps, endFrame, chunkSize, k);
      chunks := chunks + [chunk];
    }
  }

  /** One chunk of each writer: if the writers agree on the frames of the recording, they are equal. */
  lemma ChunksEqual<S>(fast: Chunk<S>, whole: Chunk<S>, eps: seq<EntityPositions<S>>, k: uint32,
                       endFrame: uint32, chunkSize: uint32)
    requires chunkSize > 0 && k < ChunkCount(endFrame, chunkSize) && SameFrames(eps, endFrame)
    requires ChunkShape(fast, k, endFrame, chunkSize) && Holds(fast, Emitted(eps))
    requires IsWholeChunk(whole, eps, k, endFrame, chunkSize)
    ensures fast == whole
  {
    FramesOfRecording(fast, k, endFrame, chunkSize);
    forall i | 0 <= i < |fast.frames|
      ensures fast.frames[i] == whole.frames[i]
    {
      assert fast.frames[i] in fast.frames && whole.frames[i] in whole.frames;
    }
    assert fast.frames == whole.frames;
  }

  /** If the two chunks are equal, the writers agree on every frame of theirs. */
  lemma EqualChunksAgree<S>(chunk: Chunk<S>, eps: seq<EntityPositions<S>>, k: uint32, endFrame: uint32,
                            chunkSize: uint32, f: uint32)
    requires chunkSize > 0 && InChunk(f, k, endFrame, chunkSize)
    requires IsWholeChunk(chunk, eps, k, endFrame, chunkSize) && Holds(chunk, Emitted(eps))
    ensures AtFrame(Emitted(eps), f) == WholeAt(eps, f)
  {
    FrameAtOffset(chunk, k, endFrame, chunkSize, f);
    var frame := chunk.frames[f - ChunkStart(k, chunkSize)];
    assert frame in chunk.frames;
  }

  lemma FramesOfRecording<S>(chunk: Chunk<S>, k: uint32, endFrame: uint32, chunkSize: uint32)
    requires chunkSize > 0 && k < ChunkCount(endFrame, chunkSize) && ChunkShape(chunk, k, endFrame, chunkSize)
    ensures forall i :: 0 <= i < |chunk.frames| ==> chunk.frames[i].frameNum <= endFrame
  {}

  lemma EqualWritersAgree<S>(chunks: seq<Chunk<S>>, eps: seq<EntityPositions<S>>, endFrame: uint32, chunkSize: uint32)
    requires chunkSize > 0 && Representable(endFrame, chunkSize) && IsWhole(chunks, eps, endFrame, chunkSize)
    requires forall k :: 0 <= k < |chunks| ==> Holds(chunks[k], Emitted(eps))
    ensures SameFrames(eps, endFrame)
  {
    forall f: uint32 | f <= endFrame
      ensures AtFrame(Emitted(eps), f) == WholeAt(eps, f)
    {
      AgreeAtFrame(chunks, eps, endFrame, chunkSize, f);
    }
  }

  lemma AgreeAtFrame<S>(chunks: seq<Chunk<S>>, eps: seq<EntityPositions<S>>, endFrame: uint32, chunkSize: uint32,
                        f: uint32)
    requires chunkSize > 0 && Representable(endFrame, chunkSize) && f <= endFrame
    requires IsWhole(chunks, eps, endFrame, chunkSize)
    requires forall j :: 0 <= j < |chunks| ==> Holds(chunks[j], Emitted(eps))
    ensures AtFrame(Emitted(eps), f) == WholeAt(eps, f)
  {
    var k := ChunkOfFrame(f, endFrame, chunkSize);
    var chunk := chunks[k];
    assert IsWholeChunk(chunk, eps, k, endFrame, chunkSize) && Holds(chunk, Emitted(eps));
    EqualChunksAgree(chunk, eps, k, endFrame, chunkSize, f);
  }

  lemma ChunkOfFrame(f: uint32, endFrame: uint32, chunkSize: uint32) returns (k: uint32)
    requires chunkSize > 0 && Representable(endFrame, chunkSize) && f <= endFrame
    ensures InChunk(f, k, endFrame, chunkSize)
  {
    QuotientAtMost(f, chunkSize);
    k := f / chunkSize;
    InChunkMeaning(f, k, endFrame, chunkSize);
  }

  lemma AgreeingWritersEqual<S>(out: Output<S>, whole: seq<Chunk<S>>, eps: seq<EntityPositions<S>>,
                                endFrame: uint32, chunkSize: uint32)
    requires chunkSize > 0 && SameFrames(eps, endFrame)
    requires IsOutput(out, endFrame, chunkSize, Emitted(eps)) && IsWhole(whole, eps, endFrame, chunkSize)
    ensures out.chunks == whole
  {
    forall k | 0 <= k < |whole|
      ensures out.chunks[k] == whole[k]
    {
      ChunksEqual(out.chunks[k], whole[k], eps, k, endFrame, chunkSize);
    }
  }

  /** The streaming converter writes exactly the chunks of the whole-recording writer, every index, frame and entity
      alike, if no entity records a frame of the recording twice; and for representable sizes only then. */
  lemma WritersAgree<S>(out: Output<S>, whole: seq<Chunk<S>>, eps: seq<EntityPositions<S>>,
                        endFrame: uint32, chunkSize: uint32)
    requires chunkSize > 0
    requires IsOutput(out, endFrame, chunkSize, Emitted(eps)) && IsWhole(whole, eps, endFrame, chunkSize)
    ensures (forall ep <- eps :: DistinctFrames(ep, endFrame)) ==> out.chunks == whole
    ensures Representable(endFrame, chunkSize) && out.chunks == whole ==>
              forall ep <- eps :: DistinctFrames(ep, endFrame)
  {
    StreamingEqualsWhole(eps, endFrame);
    if SameFrames(eps, endFrame) {
      AgreeingWritersEqual(out, whole, eps, endFrame, chunkSize);
    } else if Representable(endFrame, chunkSize) && out.chunks == whole {
      EqualWritersAgree(whole, eps, endFrame, chunkSize);
    }
  }

  lemma AgreementMeansDistinct<S>(eps: seq<EntityPositions<S>>, ep: EntityPositions<S>, endFrame: uint32)
    requires ep in eps && SameFrames(eps, endFrame)
    ensures DistinctFrames(ep, endFrame)
  {
    forall i, j | 0 <= i < j < |ep.positions| && ep.positions[i].frame == ep.positions[j].frame
      ensures ep.positions[i].frame > endFrame
    {
      var f := ep.positions[i].frame;
      EntityAtFrame(ep, f);
      FrameAgrees(eps, f);
    }
  }

  lemma DistinctMeansAgreement<S>(eps: seq<EntityPositions<S>>, endFrame: uint32, f: uint32)
    requires f <= endFrame && forall ep <- eps :: DistinctFrames(ep, endFrame)
    ensures AtFrame(Emitted(eps), f) == WholeAt(eps, f)
  {
    forall ep <- eps
      ensures |AtFrame(StatesOf(ep), f)| == |FirstState(ep, f)|
    {
      EntityAtFrame(ep, f);
      assert DistinctFrames(ep, endFrame);
    }
    FrameAgrees(eps, f);
  }

  // ----- The browser's decoder

  /** Per entity, one slot per frame of the chunk. */
  datatype ChunkData<S> = ChunkData(entities: map<uint32, seq<Option<S>>>) {
    function Slot(id: uint32, i: nat): Option<S> {
      if id in entities && i < |entities[id]| then entities[id][i] else None
    }
  }

  /** The last of these states that belongs to the entity. */
  ghost function LastOf<S>(states: seq<EntityState<S>>, id: uint32): Option<S> {
    if states == [] then None
    else
      var n := |states| - 1;
      if states[n].entityId == id then Some(states[n].state) else LastOf(states[..n], id)
  }

  /** Slots are filled from the first n frames and the first m states of the next; every entity's array
      has one slot per frame. */
  ghost predicate Filled<S>(data: ChunkData<S>, chunk: Chunk<S>, n: nat, m: nat)
    requires n < |chunk.frames| ==> m <= |chunk.frames[n].entities|
  {
    && (forall id <- data.entities :: |data.entities[id]| == |chunk.frames|)
    && (forall id: uint32, i: nat {:trigger data.Slot(id, i)} :: i < |chunk.frames| ==>
          data.Slot(id, i) ==
            if i < n then LastOf(chunk.frames[i].entities, id)
            else if i == n then LastOf(chunk.frames[i].entities[..m], id)
            else None)
  }

  method DecodeChunk<S>(chunk: Chunk<S>) returns (data: ChunkData<S>)
    requires |chunk.frames| == chunk.frameCount
    requires forall i :: 0 <= i < |chunk.frames| ==> chunk.frames[i].frameNum == chunk.startFrame + i
    ensures Filled(data, chunk, chunk.frameCount, 0)
  {
    data := ChunkData(map[]);
    for n := 0 to |chunk.frames|
      invariant Filled(data, chunk, n, 0)
    {
      var frame := chunk.frames[n];
      var idx := frame.frameNum - chunk.startFrame;
      for m := 0 to |frame.entities|
        invariant Filled(data, chunk, n, m)
      {
        var raw := frame.entities[m];
        FillSlot(data, chunk, n, m);
        var arr :=
          if raw.entityId in data.entities then data.entities[raw.entityId] else seq(chunk.frameCount, _ => None);
        data := ChunkData(data.entities[raw.entityId := arr[idx := Some(raw.state)]]);
      }
      NextFrameSlots(data, chunk, n);
    }
  }

  lemma FillSlot<S>(data: ChunkData<S>, chunk: Chunk<S>, n: nat, m: nat)
    requires n < |chunk.frames| && m < |chunk.frames[n].entities| && Filled(data, chunk, n, m)
    ensures var raw := chunk.frames[n].entities[m];
      var arr := if raw.entityId in data.entities then data.entities[raw.entityId] else seq(|chunk.frames|, _ => None);
      && |arr| == |chunk.frames|
      && Filled(ChunkData(data.entities[raw.entityId := arr[n := Some(raw.state)]]), chunk, n, m + 1)
  {
    var raw, es := chunk.frames[n].entities[m], chunk.frames[n].entities;
    var arr := if raw.entityId in data.entities then data.entities[raw.entityId] else seq(|chunk.frames|, _ => None);
    var data' := ChunkData(data.entities[raw.entityId := arr[n := Some(raw.state)]]);
    forall id: uint32, i: nat | i < |chunk.frames|
      ensures data'.Slot(id, i) ==
        if i < n then LastOf(chunk.frames[i].entities, id)
        else if i == n then LastOf(chunk.frames[i].entities[..m + 1], id)
        else None
    {
      assert es[..m + 1][..m] == es[..m];
      assert data'.Slot(id, i) == if id == raw.entityId && i == n then Some(raw.state) else data.Slot(id, i);
    }
  }

  lemma NextFrameSlots<S>(data: ChunkData<S>, chunk: Chunk<S>, n: nat)
    requires n < |chunk.frames| && Filled(data, chunk, n, |chunk.frames[n].entities|)
    ensures Filled(data, chunk, n + 1, 0)
  {
    assert chunk.frames[n].entities[..|chunk.frames[n].entities|] == chunk.frames[n].entities;
  }

  // ----- End to end

  /** The last state the parser emitted for an entity at a frame. */
  ghost function LastEmitted<S>(states: seq<EntityState<S>>, id: uint32, f: uint32): Option<S> {
    if states == [] then None
    else
      var n := |states| - 1;
      if states[n].entityId == id && states[n].frameNum == f then Some(states[n].state)
      else LastEmitted(states[..n], id, f)
  }

  lemma {:induction false} LastOfFrame<S>(states: seq<EntityState<S>>, id: uint32, f: uint32)
    ensures LastOf(AtFrame(states, f), id) == LastEmitted(states, id, f)
  {
    if states != [] {
      var n := |states| - 1;
      LastOfFrame(states[..n], id, f);
      GroupedNext(states, n, f);
      assert states[..n + 1] == states;
      var before := AtFrame(states[..n], f);
      if states[n].frameNum == f {
        assert AtFrame(states, f) == before + [Clear(states[n])];
        assert (before + [Clear(states[n])])[..|before|] == before;
      } else {
        assert AtFrame(states, f) == before;
      }
    }
  }

  lemma {:induction false} LastEmittedConcat<S>(a: seq<EntityState<S>>, b: seq<EntityState<S>>, id: uint32, f: uint32)
    ensures LastEmitted(a + b, id, f)
         == if LastEmitted(b, id, f).Some? then LastEmitted(b, id, f) else LastEmitted(a, id, f)
  {
    if b == [] {
      assert a + b == a;
    } else {
      var n := |b| - 1;
      assert (a + b)[..|a| + n] == a + b[..n];
      LastEmittedConcat(a, b[..n], id, f);
    }
  }

  lemma {:induction false} LastOfStates<S>(id: uint32, positions: seq<Position<S>>, other: uint32, f: uint32)
    ensures LastEmitted(StatesOf(EntityPositions(id, positions)), other, f)
         == if id == other then LastAt(positions, f) else None
  {
    if positions != [] {
      var n := |positions| - 1;
      var states := StatesOf(EntityPositions(id, positions));
      assert states[..n] == StatesOf(EntityPositions(id, positions[..n]));
      LastOfStates(id, positions[..n], other, f);
    }
  }

  /** What one entity adds to the emitted states. */
  lemma EmittedNext<S>(entities: seq<RawEntity<S>>)
    requires entities != []
    ensures var n := |entities| - 1; var e := entities[n];
      Emitted(Collected(entities)) == Emitted(Collected(entities[..n]))
        + if e.entries.None? then []
          else StatesOf(EntityPositions(e.id, Positions(e.entries.value, e.startFrame, e.kind)))
  {
    var n := |entities| - 1;
    var e, before := entities[n], Collected(entities[..n]);
    if e.entries.None? {
      assert Collected(entities) == before;
      assert Emitted(before) + [] == Emitted(before);
    } else {
      var ep := EntityPositions(e.id, Positions(e.entries.value, e.startFrame, e.kind));
      assert Collected(entities) == before + [ep];
      assert (before + [ep])[..|before|] == before;
    }
  }

  lemma {:induction false} NothingEmitted<S>(entities: seq<RawEntity<S>>, id: uint32, f: uint32)
    requires forall e <- entities :: e.id != id
    ensures LastEmitted(Emitted(Collected(entities)), id, f) == None
  {
    if entities != [] {
      var n := |entities| - 1;
      EmittedFrom(entities, id, f);
      NothingEmitted(entities[..n], id, f);
    }
  }

  lemma EmittedFrom<S>(entities: seq<RawEntity<S>>, id: uint32, f: uint32)
    requires entities != []
    ensures var n := |entities| - 1; var e := entities[n];
      var own :=
        if e.id == id && e.entries.Some? then LastAt(Positions(e.entries.value, e.startFrame, e.kind), f) else None;
      LastEmitted(Emitted(Collected(entities)), id, f)
        == if own.Some? then own else LastEmitted(Emitted(Collected(entities[..n])), id, f)
  {
    var n := |entities| - 1;
    var e, before := entities[n], Emitted(Collected(entities[..n]));
    EmittedNext(entities);
    if e.entries.None? {
      LastEmittedConcat(before, [], id, f);
    } else {
      var positions := Positions(e.entries.value, e.startFrame, e.kind);
      LastEmittedConcat(before, StatesOf(EntityPositions(e.id, positions)), id, f);
      LastOfStates(e.id, positions, id, f);
    }
  }

  /** For an entity whose id no other one has, the last state emitted at a frame is the last one recorded for it. */
  lemma {:induction false} EmittedAreRecorded<S>(entities: seq<RawEntity<S>>, i: nat, f: uint32)
    requires i < |entities| && entities[i].entries.Some?
    requires forall j :: 0 <= j < |entities| && j != i ==> entities[j].id != entities[i].id
    ensures var e := entities[i];
      LastEmitted(Emitted(Collected(entities)), e.id, f)
        == LastAt(Positions(e.entries.value, e.startFrame, e.kind), f)
  {
    var n := |entities| - 1;
    EmittedFrom(entities, entities[i].id, f);
    if i == n {
      NothingEmitted(entities[..n], entities[i].id, f);
    } else {
      EmittedAreRecorded(entities[..n], i, f);
    }
  }

  /** Looking up an entity at any frame f of the recording, by chunk k = f / chunkSize and slot
      i = f mod chunkSize, yields exactly the last state the parser emitted for it, or nothing if none was. */
  lemma LookupFindsLastEmitted<S>(out: Output<S>, states: seq<EntityState<S>>, endFrame: uint32, chunkSize: uint32,
                                  data: ChunkData<S>, id: uint32, f: uint32, k: uint32, i: nat)
    requires chunkSize > 0 && Representable(endFrame, chunkSize) && f <= endFrame
    requires k == f / chunkSize && i == f % chunkSize
    requires IsOutput(out, endFrame, chunkSize, states)
    requires k < |out.chunks| ==> Filled(data, out.chunks[k], |out.chunks[k].frames|, 0)
    ensures k < |out.chunks|
    ensures data.Slot(id, i) == LastEmitted(states, id, f)
  {
    assert InChunk(f, k, endFrame, chunkSize) by {
      InChunkMeaning(f, k, endFrame, chunkSize);
    }
    var chunk := out.chunks[k];
    assert i < |chunk.frames| && chunk.frames[i].frameNum == f by {
      FrameOffset(f, k, endFrame, chunkSize);
      FrameAtOffset(chunk, k, endFrame, chunkSize, f);
    }
    SlotIsLastEmitted(chunk, states, data, id, i);
  }

  lemma FrameAtOffset<S>(chunk: Chunk<S>, k: uint32, endFrame: uint32, chunkSize: uint32, f: uint32)
    requires chunkSize > 0 && InChunk(f, k, endFrame, chunkSize) && ChunkShape(chunk, k, endFrame, chunkSize)
    ensures var i := f - ChunkStart(k, chunkSize); i < |chunk.frames| && chunk.frames[i].frameNum == f
  {}

  lemma SlotIsLastEmitted<S>(chunk: Chunk<S>, states: seq<EntityState<S>>, data: ChunkData<S>, id: uint32, i: nat)
    requires i < |chunk.frames| && Holds(chunk, states) && Filled(data, chunk, |chunk.frames|, 0)
    ensures data.Slot(id, i) == LastEmitted(states, id, chunk.frames[i].frameNum)
  {
    assert chunk.frames[i] in chunk.frames;
    LastOfFrame(states, id, chunk.frames[i].frameNum);
  }

  lemma FrameOffset(f: uint32, k: uint32, endFrame: uint32, chunkSize: uint32)
    requires chunkSize > 0 && Representable(endFrame, chunkSize) && f <= endFrame && k == f / chunkSize
    ensures f - ChunkStart(k, chunkSize) == f % chunkSize
  {
    DivisionBounds(f, chunkSize);
    assert k * chunkSize <= f;
  }
}
