/** The browser's chunk cache (ui/src/data/chunkManager.ts): at most three decoded chunks, least recently
    used first out, one fetch per chunk. Each method is one uninterrupted piece of the asynchronous code;
    callers may interleave them in any order. */
module ChunkManager {
  import opened Common

  const DEFAULT_CHUNK_SIZE: nat := 300
  const MAX_CHUNKS_IN_MEMORY: nat := 3
  const PREFETCH_THRESHOLD: real := 0.8

  datatype Manifest = Manifest(chunkSize: nat, chunkCount: nat) {
    /** chunkSize || 300 */
    function FramesPerChunk(): (n: nat)
      ensures n > 0
      ensures chunkSize == 0 ==> n == 300
      ensures chunkSize != 0 ==> n == chunkSize
    {
      if chunkSize == 0 then DEFAULT_CHUNK_SIZE else chunkSize
    }

    function ChunkOf(frame: nat): nat {
      frame / FramesPerChunk()
    }

    /** Playback has come through four fifths of the frame's chunk. */
    predicate IsLate(frame: nat) {
      var chunkStartFrame := ChunkOf(frame) * FramesPerChunk();
      (frame - chunkStartFrame) as real / FramesPerChunk() as real >= PREFETCH_THRESHOLD
    }
  }

  lemma QuotientAtLeast(p: real, s: real, t: real)
    requires s > 0.0
    ensures p / s >= t <==> p >= t * s
  {
    var d := p / s - t;
    assert d * s == p - t * s;
    if d >= 0.0 {
      assert d * s >= 0.0;
    } else {
      assert d * s < 0.0;
    }
  }

  lemma FourFifths(position: int, size: int)
    ensures position as real >= PREFETCH_THRESHOLD * size as real <==> 5 * position >= 4 * size
  {
    assert (5 * position) as real == 5.0 * position as real;
    assert (4 * size) as real == 4.0 * size as real;
  }

  lemma LateMeans(m: Manifest, frame: nat)
    ensures m.IsLate(frame) <==> 5 * (frame % m.FramesPerChunk()) >= 4 * m.FramesPerChunk()
  {
    var size := m.FramesPerChunk();
    var position := frame - frame / size * size;
    assert position == frame % size;
    assert m.IsLate(frame) <==> position as real / size as real >= PREFETCH_THRESHOLD;
    QuotientAtLeast(position as real, size as real, PREFETCH_THRESHOLD);
    FourFifths(position, size);
  }

  // ----- Access order

  /** Position of k in s, or -1. */
  function IndexOf(s: seq<nat>, k: nat): (i: int)
    ensures -1 <= i < |s|
    ensures i >= 0 ==> s[i] == k && k !in s[..i]
    ensures i < 0 <==> k !in s
  {
    if s == [] then -1
    else if s[0] == k then 0
    else
      var i := IndexOf(s[1..], k);
      if i < 0 then -1 else i + 1
  }

  /** When k was last accessed, or -1. */
  ghost function LastAccess(history: seq<nat>, k: nat): (i: int)
    ensures -1 <= i < |history|
    ensures i >= 0 <==> k in history
  {
    if history == [] then -1
    else if history[|history| - 1] == k then |history| - 1
    else LastAccess(history[..|history| - 1], k)
  }

  /** Strictly by last access, oldest first; in particular without duplicates. */
  ghost predicate OldestFirst(order: seq<nat>, history: seq<nat>) {
    && (forall k <- order :: k in history)
    && (forall i, j :: 0 <= i < j < |order| ==> LastAccess(history, order[i]) < LastAccess(history, order[j]))
  }

  lemma LastAccessNext(history: seq<nat>, k: nat, j: nat)
    ensures LastAccess(history + [k], j) == if j == k then |history| else LastAccess(history, j)
  {
    assert (history + [k])[..|history|] == history;
  }

  lemma RemoveAt(order: seq<nat>, history: seq<nat>, i: nat)
    requires OldestFirst(order, history) && i < |order|
    ensures OldestFirst(order[..i] + order[i + 1..], history)
    ensures forall j :: j in order[..i] + order[i + 1..] <==> j in order && j != order[i]
  {
    var rest := order[..i] + order[i + 1..];
    assert forall p :: 0 <= p < |rest| ==> rest[p] == if p < i then order[p] else order[p + 1];
    assert order[i] !in order[..i] && order[i] !in order[i + 1..];
    InRest(order, i);
  }

  lemma InRest(s: seq<nat>, i: nat)
    requires i < |s| && s[i] !in s[..i] && s[i] !in s[i + 1..]
    ensures forall j :: j in s[..i] + s[i + 1..] <==> j in s && j != s[i]
  {
    assert s == s[..i] + [s[i]] + s[i + 1..];
  }

  lemma AppendLatest(order: seq<nat>, history: seq<nat>, k: nat)
    requires OldestFirst(order, history) && k !in order
    ensures OldestFirst(order + [k], history + [k])
  {
    forall j {
      LastAccessNext(history, k, j);
    }
  }

  ghost predicate BeforeAll(gone: nat, order: seq<nat>, history: seq<nat>) {
    forall kept <- order :: LastAccess(history, gone) < LastAccess(history, kept)
  }

  lemma DropOldest(order: seq<nat>, history: seq<nat>)
    requires OldestFirst(order, history) && order != []
    ensures OldestFirst(order[1..], history) && BeforeAll(order[0], order[1..], history)
    ensures order[0] !in order[1..] && forall j <- order :: j == order[0] || j in order[1..]
  {
    assert order == [order[0]] + order[1..];
  }

  /** How far eviction for chunk k has come, from (loaded0, order0) to (loaded, order): what is where. */
  ghost predicate Evicting<D>(loaded0: map<nat, D>, order0: seq<nat>, loaded: map<nat, D>, order: seq<nat>, k: nat) {
    && |loaded| <= |loaded0| <= MAX_CHUNKS_IN_MEMORY
    && (forall j <- order :: j in loaded)
    && (forall j <- loaded :: j == k || j in order)
    && (forall j <- loaded :: j in loaded0 && loaded[j] == loaded0[j])
    && (|loaded| == |loaded0| && k !in loaded0 ==> loaded == loaded0 && order == order0)
    && (|loaded| < |loaded0| && k !in loaded0 ==>
          |loaded0| == MAX_CHUNKS_IN_MEMORY && order0 != [] && loaded == loaded0 - {order0[0]})
    && (|loaded0| < MAX_CHUNKS_IN_MEMORY ==> loaded == loaded0 && order == order0)
  }

  /** And who went: every evicted chunk was last accessed before every chunk that is still listed. */
  ghost predicate EvictedOldest<D>(loaded0: map<nat, D>, loaded: map<nat, D>, order: seq<nat>, history: seq<nat>) {
    && OldestFirst(order, history)
    && (forall gone <- loaded0 :: gone !in loaded ==> BeforeAll(gone, order, history))
  }

  /** The loop always finds a chunk to shift off the order. */
  lemma OrderNotEmpty<D>(loaded0: map<nat, D>, order0: seq<nat>, loaded: map<nat, D>, order: seq<nat>, k: nat)
    requires Evicting(loaded0, order0, loaded, order, k) && |loaded| >= MAX_CHUNKS_IN_MEMORY
    ensures order != []
  {
    AtMostOne(loaded.Keys, k);
  }

  lemma AtMostOne(s: set<nat>, k: nat)
    ensures s <= {k} ==> |s| <= 1
  {
    if s <= {k} {
      assert s == {} || s == {k};
    }
  }

  /** Making room for a chunk that is not loaded drops the least recently used one if the cache is full,
      and no other. */
  ghost function Retained<D>(loaded: map<nat, D>, order: seq<nat>): map<nat, D> {
    if |loaded| >= MAX_CHUNKS_IN_MEMORY && order != [] then loaded - {order[0]} else loaded
  }

  /** What the eviction loop leaves behind: room for k, at the cost of what had to go. */
  ghost predicate MadeRoom<D>(loaded0: map<nat, D>, order0: seq<nat>, loaded: map<nat, D>, order: seq<nat>, k: nat) {
    && |loaded| < MAX_CHUNKS_IN_MEMORY
    && (k !in loaded0 ==> loaded == Retained(loaded0, order0))
    && (forall j <- order :: j in loaded)
    && (forall j <- loaded :: (j == k || j in order) && j in loaded0 && loaded[j] == loaded0[j])
  }

  lemma EvictionDone<D>(loaded0: map<nat, D>, order0: seq<nat>, loaded: map<nat, D>, order: seq<nat>, k: nat)
    requires Evicting(loaded0, order0, loaded, order, k) && |loaded| < MAX_CHUNKS_IN_MEMORY
    ensures MadeRoom(loaded0, order0, loaded, order, k)
  {}

  lemma EvictionStart<D>(loaded: map<nat, D>, order: seq<nat>, k: nat)
    requires |loaded| <= MAX_CHUNKS_IN_MEMORY && forall j :: j in order <==> j in loaded
    ensures Evicting(loaded, order, loaded, order, k)
  {}

  lemma EvictionStep<D>(loaded0: map<nat, D>, order0: seq<nat>, loaded: map<nat, D>, order: seq<nat>, k: nat)
    requires Evicting(loaded0, order0, loaded, order, k)
    requires |loaded| >= MAX_CHUNKS_IN_MEMORY && order != [] && order[0] !in order[1..]
    ensures Evicting(loaded0, order0, if order[0] != k then loaded - {order[0]} else loaded, order[1..], k)
  {
    RemovedSize(loaded, order[0]);
    assert order == [order[0]] + order[1..];
  }

  lemma EvictionStepOrder<D>(loaded0: map<nat, D>, loaded: map<nat, D>, order: seq<nat>, k: nat, history: seq<nat>)
    requires EvictedOldest(loaded0, loaded, order, history) && order != []
    ensures order[0] !in order[1..]
    ensures EvictedOldest(loaded0, if order[0] != k then loaded - {order[0]} else loaded, order[1..], history)
  {
    DropOldest(order, history);
    var rest := if order[0] != k then loaded - {order[0]} else loaded;
    forall gone <- loaded0 | gone !in rest
      ensures BeforeAll(gone, order[1..], history)
    {
      assert gone == order[0] || BeforeAll(gone, order, history);
    }
  }

  /** One turn of the eviction loop. */
  lemma EvictOne<D>(loaded0: map<nat, D>, order0: seq<nat>, loaded: map<nat, D>, order: seq<nat>, k: nat,
                    history: seq<nat>)
    requires Evicting(loaded0, order0, loaded, order, k) && EvictedOldest(loaded0, loaded, order, history)
    requires |loaded| >= MAX_CHUNKS_IN_MEMORY
    ensures order != []
    ensures var rest := if order[0] != k then loaded - {order[0]} else loaded;
      Evicting(loaded0, order0, rest, order[1..], k) && EvictedOldest(loaded0, rest, order[1..], history)
  {
    OrderNotEmpty(loaded0, order0, loaded, order, k);
    EvictionStepOrder(loaded0, loaded, order, k, history);
    EvictionStep(loaded0, order0, loaded, order, k);
  }

  lemma RemovedSize<D>(m: map<nat, D>, k: nat)
    requires k in m
    ensures |m - {k}| == |m| - 1
  {
    assert (m - {k}).Keys == m.Keys - {k};
  }

  ghost predicate FetchesMatch<D>(loaded: map<nat, D>, loading: set<nat>, fetches: multiset<nat>, file: map<nat, D>) {
    && (forall k :: fetches[k] <= 1)
    && (forall k <- fetches :: k in loading && k !in loaded)
    && (forall k <- loaded :: k in file && loaded[k] == file[k])
  }

  lemma FetchAnswered<D>(loaded0: map<nat, D>, loaded: map<nat, D>, loading: set<nat>, fetches: multiset<nat>,
                         file: map<nat, D>, k: nat)
    requires FetchesMatch(loaded0, loading, fetches, file) && k in fetches
    requires forall j <- loaded ::
               if j == k then k in file && loaded[j] == file[k] else j in loaded0 && loaded[j] == loaded0[j]
    ensures FetchesMatch(loaded, loading, fetches[k := fetches[k] - 1], file)
  {
    forall j <- fetches[k := fetches[k] - 1]
      ensures j in fetches && j != k
    {}
  }

  class Cache<D(!new)> {
    var loaded: map<nat, D>
    var order: seq<nat>
    var loading: set<nat>
    var prefetching: Option<nat>
    var manifest: Option<Manifest>

    ghost var accesses: seq<nat>  // every access so far, oldest first

    // the server's side
    var fetches: multiset<nat>  // requests it has not answered yet
    var file: map<nat, D>       // what the recording's chunk files decode to

    /** The access order lists exactly the loaded chunks, oldest first, and the cache is not over-full. */
    ghost predicate WellFormed()
      reads this`loaded, this`order, this`accesses
    {
      && OldestFirst(order, accesses)
      && (forall k :: k in order <==> k in loaded)
      && |loaded| <= MAX_CHUNKS_IN_MEMORY
    }

    /** Every chunk has at most one fetch in flight, none if it is loaded, and what is loaded is right. */
    ghost predicate Faithful()
      reads this`loaded, this`loading, this`fetches, this`file
    {
      FetchesMatch(loaded, loading, fetches, file)
    }

    constructor (files: map<nat, D>)
      ensures WellFormed() && Faithful() && file == files
      ensures loaded == map[] && fetches == multiset{} && loading == {} && manifest == None && prefetching == None
    {
      loaded, order, loading, prefetching, manifest := map[], [], {}, None, None;
      accesses, fetches := [], multiset{};
      file := files;
    }

    method LoadManifest(m: Manifest, files: map<nat, D>)
      modifies this`manifest, this`file
      ensures manifest == Some(m) && file == files
      ensures old(Faithful()) && loaded == map[] ==> Faithful()
    {
      manifest := Some(m);
      file := files;
    }

    /** Drops everything; requests in flight are not cancelled. */
    method Clear()
      modifies this
      ensures WellFormed()
      ensures loaded == map[] && order == [] && loading == {} && prefetching == None && manifest == None
      ensures fetches == old(fetches) && file == old(file)
      ensures Faithful() <==> fetches == multiset{}
    {
      loaded, order, loading, prefetching, manifest := map[], [], {}, None, None;
    }

    method UpdateAccessOrder(k: nat)
      requires OldestFirst(order, accesses)
      modifies this`order, this`accesses
      ensures accesses == old(accesses) + [k]
      ensures OldestFirst(order, accesses)
      ensures forall j :: j in order <==> j in old(order) || j == k
      ensures k !in old(order) ==> order == old(order) + [k]
      ensures order != [] && order[|order| - 1] == k
    {
      var idx := IndexOf(order, k);
      if idx > -1 {
        RemoveAt(order, accesses, idx);
        order := order[..idx] + order[idx + 1..];
      }
      AppendLatest(order, accesses, k);
      order := order + [k];
      accesses := accesses + [k];
    }

    method DropOldestUnless(k: nat)
      requires order != []
      modifies this`loaded, this`order
      ensures order == old(order)[1..]
      ensures loaded == if old(order)[0] != k then old(loaded) - {old(order)[0]} else old(loaded)
    {
      var oldest := order[0];
      order := order[1..];
      if oldest != k {
        loaded := loaded - {oldest};
      }
    }

    /** The eviction loop: drops the oldest chunks other than k until two or fewer remain. It never finds the
        access order empty. */
    method MakeRoom(k: nat)
      requires WellFormed()
      modifies this`loaded, this`order
      ensures MadeRoom(old(loaded), old(order), loaded, order, k)
      ensures EvictedOldest(old(loaded), loaded, order, accesses)
    {
      EvictionStart(loaded, order, k);
      ghost var loaded0, order0, history := loaded, order, accesses;
      while |loaded| >= MAX_CHUNKS_IN_MEMORY
        invariant Evicting(loaded0, order0, loaded, order, k)
        invariant EvictedOldest(loaded0, loaded, order, history)
        decreases |order|
      {
        EvictOne(loaded0, order0, loaded, order, k, history);
        DropOldestUnless(k);
      }
      EvictionDone(loaded0, order0, loaded, order, k);
    }

    /** Stores a decoded chunk. */
    method StoreInMemory(k: nat, chunk: D)
      requires WellFormed()
      modifies this`loaded, this`order, this`accesses
      ensures WellFormed()
      ensures accesses == old(accesses) + [k]
      ensures order != [] && order[|order| - 1] == k
      ensures k in loaded && loaded[k] == chunk
      ensures forall j <- loaded :: j == k || (j in old(loaded) && loaded[j] == old(loaded)[j])
      ensures k !in old(loaded) ==> loaded == Retained(old(loaded), old(order))[k := chunk]
      ensures |loaded| <= 3
      ensures k !in old(loaded) ==>
        if |old(loaded)| < 3 then loaded == old(loaded)[k := chunk]
        else old(order) != [] && loaded == (old(loaded) - {old(order)[0]})[k := chunk]
    {
      MakeRoom(k);
      loaded := loaded[k := chunk];
      UpdateAccessOrder(k);
    }

    /** loadChunk up to its first suspension: a hit is an access; otherwise a fetch is issued unless one is under
        way. */
    method LoadChunk(k: nat)
      requires WellFormed() && Faithful()
      modifies this`order, this`accesses, this`loading, this`fetches
      ensures WellFormed() && Faithful()
      ensures accesses == if k in loaded then old(accesses) + [k] else old(accesses)
      ensures k !in loaded ==> order == old(order)
      ensures loading == if k in loaded then old(loading) else old(loading) + {k}
      ensures fetches ==
        if k in loaded || k in old(loading) then old(fetches) else old(fetches)[k := old(fetches)[k] + 1]
    {
      if k in loaded {
        UpdateAccessOrder(k);
        return;
      }
      if k in loading {
        return;
      }
      loading := loading + {k};
      fetches := fetches[k := fetches[k] + 1];
    }

    /** The answer to a fetch arrives, is decoded and stored. */
    method ChunkArrived(k: nat, chunk: D)
      requires WellFormed() && Faithful()
      requires k in fetches && k in file && chunk == file[k]
      modifies this`loaded, this`order, this`accesses, this`fetches
      ensures WellFormed() && Faithful() && manifest == old(manifest)
      ensures fetches == old(fetches)[k := old(fetches)[k] - 1] && accesses == old(accesses) + [k]
      ensures k in loaded && loaded[k] == chunk
      ensures forall j <- loaded :: j == k || (j in old(loaded) && loaded[j] == old(loaded)[j])
      ensures loaded == Retained(old(loaded), old(order))[k := chunk]
    {
      StoreInMemory(k, chunk);
      FetchAnswered(old(loaded), loaded, loading, fetches, file, k);
      fetches := fetches[k := fetches[k] - 1];
    }

    method FetchFailed(k: nat)
      requires WellFormed() && Faithful() && k in fetches
      modifies this`fetches
      ensures WellFormed() && Faithful() && fetches == old(fetches)[k := old(fetches)[k] - 1]
    {
      fetches := fetches[k := fetches[k] - 1];
    }

    /** loadChunk resumes after its fetch was answered, either way. */
    method LoadSettled(k: nat)
      requires WellFormed() && Faithful() && k !in fetches
      modifies this`loading
      ensures WellFormed() && Faithful() && loading == old(loading) - {k}
    {
      loading := loading - {k};
    }

    /** ensureLoaded resumes: late in a chunk, the next one is requested ahead of time. */
    method CheckPrefetch(frame: nat, k: nat)
      requires WellFormed() && Faithful() && manifest.Some? && k == manifest.value.ChunkOf(frame)
      modifies this`order, this`accesses, this`loading, this`fetches, this`prefetching
      ensures WellFormed() && Faithful()
      ensures order == old(order) && accesses == old(accesses)
      ensures var next := k + 1;
        var size := manifest.value.FramesPerChunk();
        var due := && 5 * (frame % size) >= 4 * size && next < manifest.value.chunkCount
                   && next !in loaded && next !in old(loading) && old(prefetching) != Some(next);
        && prefetching == (if due then Some(next) else old(prefetching))
        && loading == (if due then old(loading) + {next} else old(loading))
        && fetches == (if due then old(fetches)[next := old(fetches)[next] + 1] else old(fetches))
    {
      LateMeans(manifest.value, frame);
      var next := k + 1;
      if manifest.value.IsLate(frame) && next < manifest.value.chunkCount
         && next !in loaded && next !in loading && prefetching != Some(next) {
        prefetching := Some(next);
        LoadChunk(next);
      }
    }

    method PrefetchSettled()
      modifies this`prefetching
      ensures prefetching == None
    {
      prefetching := None;
    }

    function ChunkForFrame(frame: nat): (r: Option<D>)
      requires manifest.Some?
      reads this`manifest, this`loaded
      ensures r.Some? <==> manifest.value.ChunkOf(frame) in loaded
      ensures r.Some? ==> r.value == loaded[manifest.value.ChunkOf(frame)]
    {
      var k := manifest.value.ChunkOf(frame);
      if k in loaded then Some(loaded[k]) else None
    }
  }
}
