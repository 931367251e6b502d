/** Turning an entity's recorded positions into one state per frame: the Go parser
    (internal/storage/parser_v1.go) and the legacy browser path (ui/src/data/decoders/jsonDecoder.ts). */
module RecordingParser {
  import opened Common

  datatype Range = Range(first: uint32, last: uint32)

  /** One element of an entity's positions array. S is the state parsed from it, and range its optional fifth field.
      Malformed elements have fewer than three fields: the Go parser skips them, and the legacy path makes a state of
      one or throws. */
  datatype Entry<S> = Malformed(legacy: Option<S>) | Recorded(state: S, range: Option<Range>)

  datatype Kind = Unit | Vehicle | Other

  datatype Position<S> = Position(frame: uint32, state: S)

  predicate HasRange<S>(e: Entry<S>, kind: Kind) {
    kind == Vehicle && e.Recorded? && e.range.Some?
  }

  // ----- The Go parser

  /** The state repeated for every frame of the range; nothing if the range is reversed. */
  function ExpandRange<S>(r: Range, s: S): seq<Position<S>> {
    if r.last < r.first then []
    else seq(r.last - r.first + 1, i requires 0 <= i <= r.last - r.first => Position(r.first + i, s))
  }

  /** What entry i contributes: a range is expanded, anything else takes the i-th frame of the entity. */
  function EntryPositions<S>(e: Entry<S>, i: nat, startFrame: uint32, kind: Kind): seq<Position<S>> {
    if e.Malformed? then []
    else if HasRange(e, kind) then ExpandRange(e.range.value, e.state)
    else [Position(Wrap32(startFrame + i), e.state)]
  }

  function Positions<S>(entries: seq<Entry<S>>, startFrame: uint32, kind: Kind): seq<Position<S>> {
    if entries == [] then []
    else
      var n := |entries| - 1;
      Positions(entries[..n], startFrame, kind) + EntryPositions(entries[n], n, startFrame, kind)
  }

  /** The frame counter of the expansion loop is a uint32: its value after n increments from first. */
  function Counter(first: uint32, n: nat): uint32 {
    Wrap32(first + n)
  }

  /** The expansion loop (increment while the counter is at most last) is left after finitely many
      increments exactly when the range does not end at the largest uint32. */
  lemma ExpansionTerminates(r: Range)
    ensures (exists n :: Counter(r.first, n) > r.last) <==> r.last < TWO_32 - 1
  {
    if r.last < TWO_32 - 1 {
      var n := if r.first <= r.last then r.last + 1 - r.first else 0;
      assert Counter(r.first, n) > r.last;
    }
  }

  ghost predicate Terminates<S>(entries: seq<Entry<S>>, kind: Kind) {
    forall e <- entries :: HasRange(e, kind) ==> e.range.value.last < TWO_32 - 1
  }

  method Expand<S>(r: Range, s: S) returns (expanded: seq<Position<S>>)
    requires r.last < TWO_32 - 1
    ensures expanded == ExpandRange(r, s)
  {
    expanded := [];
    var f := r.first;
    while f <= r.last
      invariant r.first <= f && (f <= r.last + 1 || f == r.first)
      invariant |expanded| == f - r.first
      invariant forall i :: 0 <= i < |expanded| ==> expanded[i] == Position(r.first + i, s)
      decreases r.last - f
    {
      expanded := expanded + [Position(f, s)];
      f := Wrap32(f + 1);
    }
  }

  method CollectEntityPositions<S>(entries: seq<Entry<S>>, startFrame: uint32, kind: Kind)
    returns (positions: seq<Position<S>>)
    requires Terminates(entries, kind)
    ensures positions == Positions(entries, startFrame, kind)
  {
    positions := [];
    for i := 0 to |entries|
      invariant positions == Positions(entries[..i], startFrame, kind)
    {
      assert entries[..i + 1][..i] == entries[..i];
      var e := entries[i];
      assert e in entries;
      if e.Malformed? {
        continue;
      }
      if HasRange(e, kind) {
        var expanded := Expand(e.range.value, e.state);
        positions := positions + expanded;
        continue;
      }
      positions := positions + [Position(Wrap32(startFrame + i), e.state)];
    }
    assert entries[..|entries|] == entries;
  }

  /** The last element decides: the end of its range if it has one (whatever the entity's kind),
      otherwise one frame per element. */
  function EndFrame<S>(entries: seq<Entry<S>>, startFrame: uint32): uint32 {
    if entries == [] then startFrame
    else
      var last := entries[|entries| - 1];
      if last.Recorded? && last.range.Some? then last.range.value.last
      else Wrap32(startFrame + |entries| - 1)
  }

  // ----- The legacy path

  function Repeat<S>(s: S, n: nat): seq<S> {
    seq(n, _ => s)
  }

  function Width(r: Range): nat {
    if r.last < r.first then 0 else r.last - r.first + 1
  }

  function LegacyCount<S>(e: Entry<S>, kind: Kind): nat {
    if kind != Unit && e.Recorded? && e.range.Some? then Width(e.range.value) else 1
  }

  /** The legacy path does not throw on any entry. */
  ghost predicate Readable<S>(entries: seq<Entry<S>>) {
    forall e <- entries :: e.Recorded? || e.legacy.Some?
  }

  function LegacyState<S>(e: Entry<S>): S
    requires e.Recorded? || e.legacy.Some?
  {
    if e.Recorded? then e.state else e.legacy.value
  }

  /** One state per frame, indexed from the entity's start frame; None if an entry makes it throw. */
  method LegacyExpand<S>(entries: seq<Entry<S>>, kind: Kind) returns (result: Option<seq<S>>)
    ensures result.Some? <==> Readable(entries)
    ensures result.Some? ==> result.value == LegacyStates(entries, kind)
  {
    var expanded: seq<S> := [];
    for i := 0 to |entries|
      invariant Readable(entries[..i]) && expanded == LegacyStates(entries[..i], kind)
    {
      assert entries[..i + 1][..i] == entries[..i];
      var e := entries[i];
      assert e in entries;
      if e.Malformed? && e.legacy.None? {
        return None;
      }
      var state := LegacyState(e);
      if kind != Unit && e.Recorded? && e.range.Some? {
        var r := e.range.value;
        ghost var before := expanded;
        var f: int := r.first;
        while f <= r.last
          invariant r.first <= f && (f <= r.last + 1 || f == r.first)
          invariant expanded == before + Repeat(state, f - r.first)
        {
          expanded := expanded + [state];
          f := f + 1;
        }
      } else {
        expanded := expanded + [state];
      }
    }
    assert entries[..|entries|] == entries;
    result := Some(expanded);
  }

  ghost function LegacyStates<S>(entries: seq<Entry<S>>, kind: Kind): seq<S>
    requires Readable(entries)
  {
    if entries == [] then []
    else
      var n := |entries| - 1;
      LegacyStates(entries[..n], kind) + Repeat(LegacyState(entries[n]), LegacyCount(entries[n], kind))
  }

  ghost function LegacyEndFrame<S>(entries: seq<Entry<S>>, startFrame: uint32, kind: Kind): int
    requires Readable(entries)
  {
    if entries == [] then 0 else startFrame + |LegacyStates(entries, kind)| - 1
  }

  // ----- When the two agree

  /** The positions are exactly these states at consecutive frames from first. */
  ghost predicate IsTimeline<S>(positions: seq<Position<S>>, states: seq<S>, first: int) {
    && |positions| == |states|
    && forall i :: 0 <= i < |states| ==> positions[i].frame == first + i && positions[i].state == states[i]
  }

  ghost predicate Complete<S>(entries: seq<Entry<S>>) {
    forall e <- entries :: e.Recorded?
  }

  /** The frame at which the legacy path places the first state of entry i. */
  ghost function NextFrame<S>(entries: seq<Entry<S>>, startFrame: uint32, kind: Kind, i: nat): int
    requires Complete(entries) && i <= |entries|
  {
    startFrame + |LegacyStates(entries[..i], kind)|
  }

  /** Entry i starts where the entries before it, expanded, leave off. */
  ghost predicate InPlace<S>(entries: seq<Entry<S>>, startFrame: uint32, kind: Kind, i: nat)
    requires Complete(entries) && i < |entries|
  {
    var e, next := entries[i], NextFrame(entries, startFrame, kind, i);
    if HasRange(e, kind) then Width(e.range.value) > 0 ==> e.range.value.first == next
    else Wrap32(startFrame + i) == next
  }

  ghost predicate Aligned<S>(entries: seq<Entry<S>>, startFrame: uint32, kind: Kind)
    requires Complete(entries)
  {
    forall i :: 0 <= i < |entries| ==> InPlace(entries, startFrame, kind, i)
  }

  /** Only units and vehicles are recorded with positions the two paths treat alike: for any other kind,
      the Go parser ignores ranges and the legacy path expands them. */
  ghost predicate SameShape<S>(entries: seq<Entry<S>>, kind: Kind) {
    Complete(entries) && (kind == Other ==> forall e <- entries :: e.range.None?)
  }

  lemma AlignedPrefix<S>(entries: seq<Entry<S>>, startFrame: uint32, kind: Kind)
    requires Complete(entries) && entries != []
    ensures var n := |entries| - 1;
      Aligned(entries, startFrame, kind) <==>
        Aligned(entries[..n], startFrame, kind) && InPlace(entries, startFrame, kind, n)
  {
    var n := |entries| - 1;
    forall i | 0 <= i < n
      ensures InPlace(entries, startFrame, kind, i) <==> InPlace(entries[..n], startFrame, kind, i)
    {
      assert entries[..n][..i] == entries[..i];
    }
  }

  /** The two expansions are the same timeline exactly when every entry is in place. */
  lemma {:induction false} ExpansionsAgree<S>(entries: seq<Entry<S>>, startFrame: uint32, kind: Kind)
    requires SameShape(entries, kind)
    ensures IsTimeline(Positions(entries, startFrame, kind), LegacyStates(entries, kind), startFrame)
        <==> Aligned(entries, startFrame, kind)
    ensures |Positions(entries, startFrame, kind)| == |LegacyStates(entries, kind)|
  {
    if entries != [] {
      var n := |entries| - 1;
      var e, next := entries[n], NextFrame(entries, startFrame, kind, n);
      var ps, ss := Positions(entries[..n], startFrame, kind), LegacyStates(entries[..n], kind);
      var p, s := EntryPositions(e, n, startFrame, kind), Repeat(e.state, LegacyCount(e, kind));
      ExpansionsAgree(entries[..n], startFrame, kind);
      AlignedPrefix(entries, startFrame, kind);
      assert e in entries && |p| == |s|;
      TimelineConcat(ps, ss, p, s, startFrame);
      if |p| > 0 && IsTimeline(p, s, next) {
        assert p[0].frame == next;
      }
    }
  }

  /** The legacy path has a state more for every entry that the Go parser skips. */
  lemma {:induction false} LengthsAgree<S>(entries: seq<Entry<S>>, startFrame: uint32, kind: Kind)
    requires Readable(entries) && (kind == Other ==> forall e <- entries :: e.Recorded? ==> e.range.None?)
    ensures |Positions(entries, startFrame, kind)| <= |LegacyStates(entries, kind)|
    ensures |Positions(entries, startFrame, kind)| == |LegacyStates(entries, kind)| <==> Complete(entries)
  {
    if entries != [] {
      var n := |entries| - 1;
      LengthsAgree(entries[..n], startFrame, kind);
      assert entries[n] in entries && entries == entries[..n] + [entries[n]];
    }
  }

  /** So with malformed entries too, the two are the same timeline exactly when there are none and all are in place. */
  lemma ExpansionsAgreeExactly<S>(entries: seq<Entry<S>>, startFrame: uint32, kind: Kind)
    requires Readable(entries) && (kind == Other ==> forall e <- entries :: e.Recorded? ==> e.range.None?)
    ensures IsTimeline(Positions(entries, startFrame, kind), LegacyStates(entries, kind), startFrame)
        <==> Complete(entries) && Aligned(entries, startFrame, kind)
  {
    LengthsAgree(entries, startFrame, kind);
    if Complete(entries) {
      ExpansionsAgree(entries, startFrame, kind);
    }
  }

  lemma TimelineConcat<S>(ps: seq<Position<S>>, ss: seq<S>, p: seq<Position<S>>, s: seq<S>, startFrame: uint32)
    requires |ps| == |ss| && |p| == |s|
    ensures IsTimeline(ps + p, ss + s, startFrame) <==>
              IsTimeline(ps, ss, startFrame) && IsTimeline(p, s, startFrame + |ss|)
  {
    if IsTimeline(ps + p, ss + s, startFrame) {
      forall i | 0 <= i < |ss|
        ensures ps[i].frame == startFrame + i && ps[i].state == ss[i]
      {
        assert (ps + p)[i] == ps[i] && (ss + s)[i] == ss[i];
      }
      forall i | 0 <= i < |s|
        ensures p[i].frame == startFrame + |ss| + i && p[i].state == s[i]
      {
        assert (ps + p)[|ss| + i] == p[i] && (ss + s)[|ss| + i] == s[i];
      }
    }
  }

  /** What the format promises: dense entries, or contiguous ranges from the entity's start frame. */
  ghost predicate Dense<S>(entries: seq<Entry<S>>) {
    forall e <- entries :: e.Recorded? && e.range.None?
  }

  ghost predicate Contiguous<S>(entries: seq<Entry<S>>, startFrame: uint32) {
    && (forall e <- entries :: e.Recorded? && e.range.Some? && Width(e.range.value) > 0)
    && (entries != [] ==> entries[0].range.value.first == startFrame)
    && (forall i :: 0 < i < |entries| ==> entries[i].range.value.first == entries[i - 1].range.value.last + 1)
  }

  lemma {:induction false} DenseIsAligned<S>(entries: seq<Entry<S>>, startFrame: uint32, kind: Kind)
    requires Dense(entries) && startFrame + |entries| <= TWO_32
    ensures Aligned(entries, startFrame, kind) && |LegacyStates(entries, kind)| == |entries|
  {
    if entries != [] {
      var n := |entries| - 1;
      assert entries[n] in entries;
      DenseIsAligned(entries[..n], startFrame, kind);
      AlignedPrefix(entries, startFrame, kind);
    }
  }

  lemma {:induction false} ContiguousIsAligned<S>(entries: seq<Entry<S>>, startFrame: uint32)
    requires Contiguous(entries, startFrame)
    ensures Aligned(entries, startFrame, Vehicle)
    ensures entries != [] ==>
              startFrame + |LegacyStates(entries, Vehicle)| == entries[|entries| - 1].range.value.last + 1
  {
    if entries != [] {
      var n := |entries| - 1;
      assert forall i :: 0 <= i < |entries| ==> entries[i] in entries;
      var init := entries[..n];
      assert Contiguous(init, startFrame) by {
        assert forall i :: 0 <= i < n ==> init[i] == entries[i];
      }
      ContiguousIsAligned(init, startFrame);
      AlignedPrefix(entries, startFrame, Vehicle);
      if n > 0 {
        assert init[n - 1] == entries[n - 1];
      }
    }
  }

  /** The last entry ends where the legacy path, expanding all entries, ends: without a range always, otherwise
      depending on where its range lies against the frames before it. */
  ghost predicate EndsInPlace<S>(entries: seq<Entry<S>>, startFrame: uint32, kind: Kind)
    requires Complete(entries) && entries != []
  {
    var n := |entries| - 1;
    var last, next := entries[n], NextFrame(entries, startFrame, kind, n);
    assert last in entries;
    || last.range.None?
    || (kind == Unit && last.range.value.last == next)
    || (kind != Unit && Width(last.range.value) == 0 && last.range.value.last == next - 1)
    || (kind != Unit && Width(last.range.value) > 0 && last.range.value.first == next)
  }

  /** For entries in place, both paths give the same end frame exactly if the last entry ends in place: among
      vehicles, exactly if its range is not reversed or ends one before the frames of the others. Without entries
      the Go parser gives the start frame and the legacy path 0. */
  lemma EndFramesAgree<S>(entries: seq<Entry<S>>, startFrame: uint32, kind: Kind)
    requires Complete(entries) && Aligned(entries, startFrame, kind)
    ensures EndFrame(entries, startFrame) == LegacyEndFrame(entries, startFrame, kind)
        <==> if entries == [] then startFrame == 0 else EndsInPlace(entries, startFrame, kind)
    ensures entries != [] && kind == Vehicle && entries[|entries| - 1].Recorded? ==>
              var range := entries[|entries| - 1].range;
              range.Some? && Width(range.value) > 0 ==> EndsInPlace(entries, startFrame, kind)
  {
    if entries != [] {
      var n := |entries| - 1;
      assert entries[n] in entries;
      assert InPlace(entries, startFrame, kind, n);
    }
  }

  // ----- The state shown at a frame

  /** The last position recorded for a frame; later entries overwrite earlier ones. */
  ghost function LastAt<S>(positions: seq<Position<S>>, frame: int): Option<S> {
    if positions == [] then None
    else
      var n := |positions| - 1;
      if positions[n].frame == frame then Some(positions[n].state) else LastAt(positions[..n], frame)
  }

  lemma {:induction false} TimelineLookup<S>(positions: seq<Position<S>>, states: seq<S>, startFrame: uint32,
                                             frame: int)
    requires IsTimeline(positions, states, startFrame)
    ensures LastAt(positions, frame)
         == if 0 <= frame - startFrame < |states| then Some(states[frame - startFrame]) else None
  {
    if positions != [] {
      var n := |positions| - 1;
      TimelineLookup(positions[..n], states[..n], startFrame, frame);
    }
  }

  /** For aligned entries, indexing the legacy states by frame minus start frame selects what the Go
      expansion recorded for that frame, at every frame. */
  lemma LookupsAgree<S>(entries: seq<Entry<S>>, startFrame: uint32, kind: Kind, frame: int)
    requires SameShape(entries, kind) && Aligned(entries, startFrame, kind)
    ensures var states, i := LegacyStates(entries, kind), frame - startFrame;
      LastAt(Positions(entries, startFrame, kind), frame) == if 0 <= i < |states| then Some(states[i]) else None
  {
    ExpansionsAgree(entries, startFrame, kind);
    TimelineLookup(Positions(entries, startFrame, kind), LegacyStates(entries, kind), startFrame, frame);
  }
}
