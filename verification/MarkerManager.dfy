/** Briefing markers on the map (ui/src/playback/markerManager.ts): an incremental renderer that creates,
    updates and removes markers as the frame changes, skipping updates that would change nothing. */
module MarkerManager {
  import opened Common

  type Coord = (real, real)

  datatype Style = Style(kind: string, color: string, brush: Option<string>, size: Option<(real, real)>)

  /** The style fields a keyframe may override; None where the entry has no (truthy) value. */
  datatype Overrides = Overrides(kind: Option<string>, color: Option<string>, brush: Option<string>,
                                 size: Option<(real, real)>)

  const NO_OVERRIDES := Overrides(None, None, None, None)

  /** A parsed position entry. */
  datatype Keyframe = Keyframe(frameNum: nat, position: Coord, direction: real, alpha: real,
                               linePoints: Option<seq<Coord>>, overrides: Overrides)

  datatype Layer = Briefing | System | Projectile

  const FRAME_FOREVER: int := -1
  const SYSTEM_PLAYER: int := -1
  const GLOBAL: string := "GLOBAL"

  datatype MarkerDef = MarkerDef(positions: seq<Keyframe>, startFrame: nat, endFrame: int, player: int, side: string,
                                 layer: Layer, style: Style, text: string)

  predicate Contains(s: string, part: string) {
    part <= s || (s != "" && Contains(s[1..], part))
  }

  /** Trigger zones, and empty markers without a text, are never put on the map. */
  predicate IsDrawable(def: MarkerDef) {
    !Contains(def.style.kind, "zoneTrigger") && !(Contains(def.style.kind, "Empty") && def.text == "")
  }

  function Drawable(defs: seq<MarkerDef>): seq<MarkerDef> {
    if defs == [] then []
    else
      var n := |defs| - 1;
      Drawable(defs[..n]) + if IsDrawable(defs[n]) then [defs[n]] else []
  }

  predicate OccursAt(s: string, part: string, i: int) {
    0 <= i <= |s| - |part| && s[i..i + |part|] == part
  }

  lemma {:induction false} ContainsMeans(s: string, part: string)
    ensures Contains(s, part) <==> exists i :: OccursAt(s, part, i)
  {
    if part <= s {
      assert OccursAt(s, part, 0);
    } else if s != "" {
      ContainsMeans(s[1..], part);
      forall i | OccursAt(s, part, i)
        ensures OccursAt(s[1..], part, i - 1)
      {
        assert i > 0;
        assert s[1..][i - 1..i - 1 + |part|] == s[i..i + |part|];
      }
      forall i | OccursAt(s[1..], part, i)
        ensures OccursAt(s, part, i + 1)
      {
        assert s[i + 1..i + 1 + |part|] == s[1..][i..i + |part|];
      }
    }
  }

  /** Exactly the definitions that are put on the map: no trigger zone, and no empty marker without a text. */
  lemma {:induction false} DrawableExactly(defs: seq<MarkerDef>, def: MarkerDef)
    ensures def in Drawable(defs) <==>
      && def in defs
      && !(exists i :: OccursAt(def.style.kind, "zoneTrigger", i))
      && (def.text != "" || !(exists i :: OccursAt(def.style.kind, "Empty", i)))
  {
    if defs != [] {
      DrawableExactly(defs[..|defs| - 1], def);
      ContainsMeans(def.style.kind, "zoneTrigger");
      ContainsMeans(def.style.kind, "Empty");
    }
  }

  /** And in their order. */
  lemma {:induction false} DrawableInOrder(before: seq<MarkerDef>, after: seq<MarkerDef>)
    ensures Drawable(before + after) == Drawable(before) + Drawable(after)
  {
    if after == [] {
      assert before + after == before;
    } else {
      var n := |after| - 1;
      assert (before + after)[..|before| + n] == before + after[..n];
      DrawableInOrder(before, after[..n]);
    }
  }

  // ----- Finding the keyframe

  /** The marker is on the map at this frame, by its lifetime alone. */
  predicate Active(def: MarkerDef, frame: nat) {
    def.positions != [] && def.startFrame <= frame && (def.endFrame == FRAME_FOREVER || frame <= def.endFrame)
  }

  predicate Sorted(positions: seq<Keyframe>) {
    forall i, j :: 0 <= i < j < |positions| ==> positions[i].frameNum <= positions[j].frameNum
  }

  /** The marker is active already, but all its keyframes, if in order, are yet to come. */
  predicate StartsLate(def: MarkerDef, frame: nat) {
    Active(def, frame) && def.positions[0].frameNum > frame
  }

  datatype Found = NotActive | At(index: nat) | Throws

  /** Binary search by bisection until the range stops shrinking. With no keyframe at or before the frame, the
      range runs off the front of the array and the program throws. */
  method FindPositionIndex(def: MarkerDef, frame: nat) returns (r: Found)
    ensures r.NotActive? <==> !Active(def, frame)
    ensures r.At? ==> r.index < |def.positions| && def.positions[r.index].frameNum <= frame
    ensures r.Throws? ==> def.positions[0].frameNum > frame
    ensures Sorted(def.positions) && r.At? ==>
              forall j :: r.index < j < |def.positions| ==> def.positions[j].frameNum > frame
    ensures Sorted(def.positions) && Active(def, frame) ==> (r.Throws? <==> def.positions[0].frameNum > frame)
  {
    var positions := def.positions;
    if |positions| == 0 {
      return NotActive;
    }
    if frame < def.startFrame {
      return NotActive;
    }
    if def.endFrame != FRAME_FOREVER && frame > def.endFrame {
      return NotActive;
    }
    var lo, hi := 0, |positions| - 1;
    var lastLength := -1;
    while lastLength != hi - lo + 1
      invariant 0 <= lo < |positions| && lo - 1 <= hi < |positions|
      invariant lo > 0 ==> positions[lo].frameNum <= frame
      invariant hi < lo ==> lo == 0 && positions[0].frameNum > frame
      invariant lastLength == hi - lo + 1 ==> hi >= lo && hi <= lo + 1 && positions[lo].frameNum <= frame
      invariant lastLength == -1 || lastLength >= hi - lo + 1
      invariant Sorted(positions) ==> forall j :: hi < j < |positions| ==> positions[j].frameNum > frame
      decreases hi - lo + 1, if lastLength == hi - lo + 1 then 0 else 1
    {
      lastLength := hi - lo + 1;
      var mid := (hi - lo) / 2 + lo;
      if mid < 0 {
        return Throws;
      }
      if positions[mid].frameNum > frame {
        hi := mid - 1;
      } else {
        lo := mid;
      }
    }
    if hi >= 0 && positions[hi].frameNum <= frame {
      return At(hi);
    }
    return At(lo);
  }

  /** The index of the last keyframe at or before the frame. */
  function LastKeyframe(positions: seq<Keyframe>, frame: nat): (r: Option<nat>)
    ensures r.Some? ==> r.value < |positions| && positions[r.value].frameNum <= frame
    ensures r.Some? ==> forall j :: r.value < j < |positions| ==> positions[j].frameNum > frame
    ensures r.None? ==> forall j :: 0 <= j < |positions| ==> positions[j].frameNum > frame
  {
    if positions == [] then None
    else if positions[|positions| - 1].frameNum <= frame then Some(|positions| - 1)
    else LastKeyframe(positions[..|positions| - 1], frame)
  }

  // ----- What a marker looks like at a frame

  datatype MarkerState = MarkerState(position: Coord, direction: real, alpha: real, points: Option<seq<Coord>>)

  function Lerp(a: real, b: real, t: real): real {
    a + (b - a) * t
  }

  function LerpKeyframes(a: Keyframe, b: Keyframe, t: real): Keyframe {
    Keyframe(a.frameNum, (Lerp(a.position.0, b.position.0, t), Lerp(a.position.1, b.position.1, t)),
             Lerp(a.direction, b.direction, t), Lerp(a.alpha, b.alpha, t), None, NO_OVERRIDES)
  }

  function Clamp01(t: real): real {
    if t < 0.0 then 0.0 else if t > 1.0 then 1.0 else t
  }

  /** A projectile with a next keyframe moves on every frame; anything else stands at its keyframe. */
  predicate Moves(def: MarkerDef, index: nat) {
    def.layer == Projectile && index + 1 < |def.positions|
  }

  function Parsed(def: MarkerDef, index: nat, frame: int): Keyframe
    requires index < |def.positions|
  {
    var a := def.positions[index];
    if Moves(def, index) then
      var b := def.positions[index + 1];
      var span := b.frameNum - a.frameNum;
      var t := if span > 0 then (frame - a.frameNum) as real / span as real else 1.0;
      LerpKeyframes(a, b, Clamp01(t))
    else a
  }

  /** Between keyframes a moving marker starts out from the one and arrives at the next. */
  lemma MovesBetweenKeyframes(def: MarkerDef, index: nat)
    requires index < |def.positions| && Moves(def, index)
    requires def.positions[index].frameNum < def.positions[index + 1].frameNum
    ensures SamePlace(Parsed(def, index, def.positions[index].frameNum), def.positions[index])
    ensures SamePlace(Parsed(def, index, def.positions[index + 1].frameNum), def.positions[index + 1])
  {
    var a, b := def.positions[index], def.positions[index + 1];
    Ratio(b.frameNum - a.frameNum);
    assert Parsed(def, index, a.frameNum) == LerpKeyframes(a, b, 0.0);
    assert Parsed(def, index, b.frameNum) == LerpKeyframes(a, b, 1.0);
  }

  lemma Ratio(span: nat)
    requires span > 0
    ensures 0 as real / span as real == 0.0 && span as real / span as real == 1.0
  {}

  /** At frame f, value v is on its way from a at frame fa to b at frame fb, in proportion. */
  predicate OnWay(a: real, b: real, v: real, fa: nat, fb: nat, f: nat) {
    (v - a) * (fb - fa) as real == (b - a) * (f - fa) as real
  }

  lemma LerpOnWay(a: real, b: real, t: real, fa: nat, fb: nat, f: nat)
    requires fa < fb && t == (f - fa) as real / (fb - fa) as real
    ensures OnWay(a, b, Lerp(a, b, t), fa, fb, f)
  {
    var span, part := (fb - fa) as real, (f - fa) as real;
    assert t * span == part;
    assert (b - a) * t * span == (b - a) * (t * span);
  }

  /** Between two keyframes everything about a moving marker is on its way. */
  lemma ParsedOnWay(def: MarkerDef, index: nat, frame: nat)
    requires index + 1 < |def.positions| && def.layer == Projectile
    requires def.positions[index].frameNum <= frame < def.positions[index + 1].frameNum
    ensures var a, b, v := def.positions[index], def.positions[index + 1], StateOf(Parsed(def, index, frame));
      && OnWay(a.position.0, b.position.0, v.position.0, a.frameNum, b.frameNum, frame)
      && OnWay(a.position.1, b.position.1, v.position.1, a.frameNum, b.frameNum, frame)
      && OnWay(a.direction, b.direction, v.direction, a.frameNum, b.frameNum, frame)
      && OnWay(a.alpha, b.alpha, v.alpha, a.frameNum, b.frameNum, frame)
      && v.points == None
  {
    var a, b := def.positions[index], def.positions[index + 1];
    var t := (frame - a.frameNum) as real / (b.frameNum - a.frameNum) as real;
    BelowOne(frame - a.frameNum, b.frameNum - a.frameNum);
    assert Parsed(def, index, frame) == LerpKeyframes(a, b, t);
    LerpOnWay(a.position.0, b.position.0, t, a.frameNum, b.frameNum, frame);
    LerpOnWay(a.position.1, b.position.1, t, a.frameNum, b.frameNum, frame);
    LerpOnWay(a.direction, b.direction, t, a.frameNum, b.frameNum, frame);
    LerpOnWay(a.alpha, b.alpha, t, a.frameNum, b.frameNum, frame);
  }

  lemma BelowOne(part: nat, span: nat)
    requires part < span
    ensures 0.0 <= part as real / span as real <= 1.0
  {
    var q := part as real / span as real;
    assert q * span as real == part as real;
    assert (1.0 - q) * span as real == (span - part) as real;
  }

  lemma RatioOutside(part: int, span: nat)
    requires span > 0
    ensures part <= 0 ==> part as real / span as real <= 0.0
    ensures part >= span ==> part as real / span as real >= 1.0
  {
    var t := part as real / span as real;
    assert t * span as real == part as real;
    if 0.0 < t {
      assert t * span as real > 0.0;
    }
    if t < 1.0 {
      assert (1.0 - t) * span as real > 0.0;
    }
  }

  /** Outside of its two keyframes' frames a moving marker is at the nearer one; towards a next keyframe that is not
      later, it is there at once. */
  lemma OutsideKeyframes(def: MarkerDef, index: nat, frame: nat)
    requires index < |def.positions| && def.layer == Projectile && index + 1 < |def.positions|
    ensures var a, b, v := def.positions[index], def.positions[index + 1], StateOf(Parsed(def, index, frame));
      && (frame >= b.frameNum || b.frameNum <= a.frameNum ==>
            v.position == b.position && v.direction == b.direction && v.alpha == b.alpha)
      && (frame <= a.frameNum < b.frameNum ==>
            v.position == a.position && v.direction == a.direction && v.alpha == a.alpha)
  {
    var a, b := def.positions[index], def.positions[index + 1];
    if a.frameNum < b.frameNum {
      RatioOutside(frame - a.frameNum, b.frameNum - a.frameNum);
    }
    assert frame >= b.frameNum || b.frameNum <= a.frameNum ==> Parsed(def, index, frame) == LerpKeyframes(a, b, 1.0);
    assert frame <= a.frameNum < b.frameNum ==> Parsed(def, index, frame) == LerpKeyframes(a, b, 0.0);
  }

  predicate SamePlace(a: Keyframe, b: Keyframe) {
    a.position == b.position && a.direction == b.direction && a.alpha == b.alpha
  }

  function StateOf(k: Keyframe): MarkerState {
    MarkerState(k.position, k.direction, k.alpha, k.linePoints)
  }

  function Overridden(s: Style, o: Overrides): Style {
    Style(if o.kind.Some? then o.kind.value else s.kind,
          if o.color.Some? then o.color.value else s.color,
          if o.brush.Some? then o.brush else s.brush,
          if o.size.Some? then o.size else s.size)
  }

  // ----- The renderer

  /** A handle's marker: which definition it draws, in what style, and its last state. */
  datatype Drawn = Drawn(def: MarkerDef, style: Style, state: Option<MarkerState>)

  class Renderer {
    var live: map<nat, Drawn>
    var nextHandle: nat

    ghost predicate Valid()
      reads this
    {
      forall h <- live :: h < nextHandle
    }

    constructor ()
      ensures Valid() && live == map[]
    {
      live, nextHandle := map[], 0;
    }

    method Create(def: MarkerDef, style: Style) returns (h: nat)
      requires Valid()
      modifies this
      ensures Valid()
      ensures h !in old(live) && live == old(live)[h := Drawn(def, style, None)]
    {
      h := nextHandle;
      nextHandle := nextHandle + 1;
      live := live[h := Drawn(def, style, None)];
    }

    method Update(h: nat, state: MarkerState)
      requires Valid() && h in live
      modifies this`live
      ensures Valid() && live == old(live)[h := Drawn(old(live)[h].def, old(live)[h].style, Some(state))]
    {
      live := live[h := Drawn(live[h].def, live[h].style, Some(state))];
    }

    method Remove(h: nat)
      requires Valid() && h in live
      modifies this`live
      ensures Valid() && live == old(live) - {h}
    {
      live := live - {h};
    }
  }

  // ----- The manager

  class Tracked {
    const def: MarkerDef
    var handle: Option<nat>
    var lastPosIndex: int
    var lastInterpFrame: int
    var active: Style
    ghost var applied: Keyframe  // the keyframe last sent to the renderer

    /** What was sent last is the marker as of the remembered index and frame. */
    ghost predicate Remembers()
      reads this`handle, this`lastPosIndex, this`lastInterpFrame, this`applied
    {
      handle.Some? ==> 0 <= lastPosIndex < |def.positions| && applied == Parsed(def, lastPosIndex, lastInterpFrame)
    }

    method Remember(posIndex: int, frame: int)
      modifies this`lastPosIndex, this`lastInterpFrame
      ensures lastPosIndex == posIndex && lastInterpFrame == frame
    {
      lastPosIndex, lastInterpFrame := posIndex, frame;
    }

    constructor (def: MarkerDef)
      ensures this.def == def && handle == None && active == def.style
    {
      this.def := def;
      handle, lastPosIndex, lastInterpFrame, active := None, -1, -1, def.style;
      applied := Keyframe(0, (0.0, 0.0), 0.0, 0.0, None, NO_OVERRIDES);
    }
  }

  class Manager {
    const renderer: Renderer
    var markers: seq<Tracked>
    var sideFilter: Option<string>
    var blacklist: set<int>
    ghost var tracked: set<Tracked>     // the markers, as a set
    ghost var owner: map<nat, Tracked>  // the marker that holds each live handle

    predicate MatchesSideFilter(side: string)
      reads this`sideFilter
    {
      sideFilter.None? || side == sideFilter.value || side == GLOBAL
    }

    predicate IsBlacklisted(player: int)
      reads this`blacklist
    {
      player != SYSTEM_PLAYER && player in blacklist
    }

    /** What a handle shows is what was last sent for its marker, in the marker's current style. */
    ghost predicate InSync(t: Tracked)
      reads t`handle, t`active, t`applied, renderer`live
    {
      t.handle.Some? ==>
        && t.handle.value in renderer.live
        && renderer.live[t.handle.value] == Drawn(t.def, t.active, Some(StateOf(t.applied)))
        && Overridden(t.active, t.applied.overrides) == t.active
    }

    /** The live handles are exactly those the markers hold, one each. */
    ghost predicate NoLeaks()
      reads this`tracked, this`owner, renderer`live, tracked
    {
      && owner.Keys == renderer.live.Keys
      && (forall h <- owner :: owner[h] in tracked && owner[h].handle == Some(h))
      && (forall t <- tracked :: t.handle.Some? ==> t.handle.value in owner && owner[t.handle.value] == t)
    }

    ghost predicate Synced()
      reads this`tracked, this`owner, renderer, tracked
    {
      && renderer.Valid() && NoLeaks()
      && (forall t <- tracked :: InSync(t))
      && (forall t <- tracked :: t.Remembers())
    }

    ghost predicate Listed()
      reads this`markers, this`tracked
    {
      tracked == set t | t in markers
    }

    ghost predicate Valid()
      reads this`markers, this`tracked, this`owner, renderer, tracked
    {
      Listed() && Synced()
    }

    predicate Visible(def: MarkerDef, frame: nat)
      reads this`sideFilter, this`blacklist
    {
      Active(def, frame) && !IsBlacklisted(def.player) && MatchesSideFilter(def.side)
    }

    /** The marker is on the map exactly if it should be, and (for keyframes in order) what was last sent is
        what a fresh computation at this frame gives. */
    ghost predicate UpToDate(t: Tracked, frame: nat)
      reads this`sideFilter, this`blacklist, t`handle, t`applied
    {
      && (t.handle.Some? <==> Visible(t.def, frame))
      && (t.handle.Some? && Sorted(t.def.positions) ==>
            var index := LastKeyframe(t.def.positions, frame);
            index.Some? && t.applied == Parsed(t.def, index.value, frame))
    }

    constructor (renderer: Renderer)
      requires renderer.Valid() && renderer.live == map[]
      ensures Valid() && markers == [] && sideFilter == None && blacklist == {} && this.renderer == renderer
    {
      this.renderer := renderer;
      markers, sideFilter, blacklist, tracked, owner := [], None, {}, {}, map[];
    }

    method Release(t: Tracked)
      requires renderer.Valid() && NoLeaks() && t in tracked && t.handle.Some?
      modifies t`handle, renderer`live, this`owner
      ensures renderer.Valid() && NoLeaks()
      ensures t.handle == None && renderer.live == old(renderer.live) - {old(t.handle).value}
    {
      renderer.Remove(t.handle.value);
      owner := owner - {t.handle.value};
      t.handle := None;
    }

    method Acquire(t: Tracked)
      requires renderer.Valid() && NoLeaks() && t in tracked && t.handle.None?
      modifies t`handle, renderer, this`owner
      ensures renderer.Valid() && NoLeaks()
      ensures t.handle.Some? && t.handle.value !in old(renderer.live)
      ensures renderer.live == old(renderer.live)[t.handle.value := Drawn(t.def, t.active, None)]
    {
      var h := renderer.Create(t.def, t.active);
      t.handle := Some(h);
      owner := owner[h := t];
    }

    method Send(t: Tracked, k: Keyframe)
      requires renderer.Valid() && NoLeaks() && t in tracked && t.handle.Some?
      requires renderer.live[t.handle.value].def == t.def && renderer.live[t.handle.value].style == t.active
      requires Overridden(t.active, k.overrides) == t.active
      modifies renderer`live, t`applied
      ensures renderer.Valid() && NoLeaks() && InSync(t) && t.applied == k
      ensures renderer.live == old(renderer.live)[t.handle.value := Drawn(t.def, t.active, Some(StateOf(k)))]
    {
      renderer.Update(t.handle.value, StateOf(k));
      t.applied := k;
    }

    /** Releasing a marker leaves every other in sync. */
    method TakeDown(t: Tracked)
      requires renderer.Valid() && NoLeaks() && t in tracked && t.handle.Some? && forall u <- tracked :: InSync(u)
      modifies t`handle, renderer`live, this`owner
      ensures renderer.Valid() && NoLeaks() && t.handle == None && forall u <- tracked :: InSync(u)
    {
      ghost var h := t.handle.value;
      Release(t);
      forall u <- tracked
        ensures InSync(u)
      {
        assert u.handle.Some? ==> u.handle.value != h;
      }
    }

    /** A marker off the map has nothing to remember. */
    method Forget(t: Tracked)
      requires t.handle.None? && forall u <- tracked :: u == t || u.Remembers()
      modifies t`lastPosIndex, t`lastInterpFrame
      ensures t.lastPosIndex == t.lastInterpFrame == -1 && forall u <- tracked :: u.Remembers()
    {
      t.Remember(-1, -1);
    }

    /** Takes the marker off the map. */
    method Hide(t: Tracked)
      requires Synced() && t in tracked
      modifies t`handle, t`lastPosIndex, t`lastInterpFrame, renderer`live, this`owner
      ensures Synced() && t.handle == None
    {
      if t.handle.Some? {
        TakeDown(t);
        Forget(t);
      }
    }

    /** A keyframe's style overrides take effect by recreating the marker. */
    method Restyle(t: Tracked, k: Keyframe)
      requires renderer.Valid() && NoLeaks() && t in tracked
      requires t.handle.Some? ==>
                 renderer.live[t.handle.value].def == t.def && renderer.live[t.handle.value].style == t.active
      modifies t`handle, t`active, renderer, this`owner
      ensures renderer.Valid() && NoLeaks()
      ensures t.active == Overridden(old(t.active), k.overrides) && Overridden(t.active, k.overrides) == t.active
      ensures t.handle.Some?
      ensures renderer.live[t.handle.value].def == t.def && renderer.live[t.handle.value].style == t.active
      ensures forall h <- renderer.live ::
                h == t.handle.value || (h in old(renderer.live) && renderer.live[h] == old(renderer.live)[h])
      ensures forall h <- old(renderer.live) :: Some(h) == old(t.handle) || h in renderer.live
      ensures t.handle.value in old(renderer.live) ==> t.handle == old(t.handle)
    {
      var changed := Overridden(t.active, k.overrides) != t.active;
      if changed {
        if t.handle.Some? {
          Release(t);
        }
        t.active := Overridden(t.active, k.overrides);
      }
      if t.handle.None? {
        Acquire(t);
      }
    }

    /** The renderer's part of drawing: every handle is in sync again. */
    method Render(t: Tracked, k: Keyframe)
      requires renderer.Valid() && NoLeaks() && t in tracked && forall u <- tracked :: InSync(u)
      modifies t`handle, t`active, t`applied, renderer, this`owner
      ensures renderer.Valid() && NoLeaks() && forall u <- tracked :: InSync(u)
      ensures t.handle.Some? && t.applied == k && t.active == Overridden(old(t.active), k.overrides)
    {
      Restyle(t, k);
      Send(t, k);
    }

    /** Draws the marker as of a keyframe. */
    method Draw(t: Tracked, posIndex: nat, frame: nat)
      requires Synced() && t in tracked && posIndex < |t.def.positions|
      modifies t, renderer, this`owner
      ensures Synced() && t.handle.Some?
      ensures t.applied == Parsed(t.def, posIndex, frame)
      ensures t.active == Overridden(old(t.active), t.applied.overrides)
      ensures var o, before := t.applied.overrides, old(t.active);
        && (o.kind.None? ==> t.active.kind == before.kind) && (o.color.None? ==> t.active.color == before.color)
        && (o.brush.None? ==> t.active.brush == before.brush) && (o.size.None? ==> t.active.size == before.size)
    {
      var parsed := Parsed(t.def, posIndex, frame);
      Render(t, parsed);
      t.Remember(posIndex, frame);
    }

    /** Skipping is sound: the keyframe already sent is what would be sent now. */
    predicate NothingChanged(t: Tracked, posIndex: nat, frame: nat)
      reads t`handle, t`lastPosIndex, t`lastInterpFrame
    {
      var isProjectile := t.def.layer == Projectile;
      var hasNextKeyframe := posIndex + 1 < |t.def.positions|;
      t.handle.Some? && posIndex == t.lastPosIndex
      && (!isProjectile || !hasNextKeyframe || frame == t.lastInterpFrame)
    }

    lemma SkipIsSound(t: Tracked, posIndex: nat, frame: nat)
      requires t.Remembers() && posIndex < |t.def.positions| && NothingChanged(t, posIndex, frame)
      ensures t.applied == Parsed(t.def, posIndex, frame)
    {}

    /** updateFrame for one marker; false if the keyframe search throws. */
    method UpdateMarker(t: Tracked, frame: nat) returns (ok: bool)
      requires Synced() && t in tracked
      modifies t, renderer, this`owner
      ensures Synced()
      ensures ok || (Active(t.def, frame) && t.def.positions[0].frameNum > frame && t.handle == old(t.handle))
      ensures Sorted(t.def.positions) ==> (ok <==> !StartsLate(t.def, frame))
      ensures ok ==> UpToDate(t, frame)
    {
      var found := FindPositionIndex(t.def, frame);
      if found.Throws? {
        return false;
      }
      ok := true;
      if found.NotActive? || IsBlacklisted(t.def.player) || !MatchesSideFilter(t.def.side) {
        Hide(t);
        return;
      }
      LastKeyframeIs(t.def.positions, frame, found.index);
      if NothingChanged(t, found.index, frame) {
        SkipIsSound(t, found.index, frame);
        return;
      }
      Draw(t, found.index, frame);
    }

    /** updateFrame. An exception leaves the remaining markers as they were. */
    method UpdateFrame(frame: nat) returns (ok: bool)
      requires Valid()
      modifies tracked, renderer, this`owner
      ensures Valid()
      ensures (forall t <- tracked :: WellKeyed(t.def)) ==> ok
      ensures (forall t <- tracked :: Sorted(t.def.positions)) ==>
                (ok <==> forall t <- tracked :: !StartsLate(t.def, frame))
      ensures ok ==> forall t <- tracked :: UpToDate(t, frame)
    {
      for i := 0 to |markers|
        invariant Synced()
        invariant forall j :: 0 <= j < i ==> UpToDate(markers[j], frame)
        invariant NoneLate(markers[..i], frame)
      {
        ok := UpdateMarker(markers[i], frame);
        if !ok {
          return;
        }
        assert markers[..i + 1] == markers[..i] + [markers[i]];
      }
      assert markers[..|markers|] == markers;
      ok := true;
    }

    /** So right after updateFrame, what the renderer draws is the fresh computation. */
    lemma DrawnIsFresh(t: Tracked, frame: nat)
      requires Valid() && t in tracked && UpToDate(t, frame)
      requires Sorted(t.def.positions) && Visible(t.def, frame)
      ensures t.handle.Some? && t.handle.value in renderer.live
      ensures var index := LastKeyframe(t.def.positions, frame);
        && index.Some?
        && renderer.live[t.handle.value]
           == Drawn(t.def, t.active, Some(StateOf(Parsed(t.def, index.value, frame))))
    {
      assert InSync(t);
    }

    /** Right after updateFrame a marker is on the map exactly if it has keyframes, the frame is within its lifetime,
        its player is none or not blacklisted, and its side passes the filter. */
    lemma OnMapExactly(t: Tracked, frame: nat)
      requires Valid() && t in tracked && UpToDate(t, frame)
      ensures t.handle.Some? <==>
        && t.def.positions != [] && t.def.startFrame <= frame && (t.def.endFrame == -1 || frame <= t.def.endFrame)
        && (t.def.player == -1 || t.def.player !in blacklist)
        && (sideFilter.None? || t.def.side == sideFilter.value || t.def.side == "GLOBAL")
    {}

    /** What is then on the map, field by field: a marker that stands still is as its last keyframe at or before the
        frame has it, a projectile with a next keyframe is on its way there, and style overrides of a keyframe that
        stands have taken effect. */
    lemma ShownExactly(t: Tracked, frame: nat) returns (index: nat)
      requires Valid() && t in tracked && UpToDate(t, frame) && Sorted(t.def.positions) && t.handle.Some?
      ensures index < |t.def.positions| && t.def.positions[index].frameNum <= frame
      ensures forall j :: index < j < |t.def.positions| ==> t.def.positions[j].frameNum > frame
      ensures t.handle.value in renderer.live && renderer.live[t.handle.value].state.Some?
      ensures t.def.layer != Projectile || index + 1 == |t.def.positions| ==>
        var a, v := t.def.positions[index], renderer.live[t.handle.value].state.value;
        && v.position == a.position && v.direction == a.direction && v.alpha == a.alpha && v.points == a.linePoints
      ensures t.def.layer != Projectile || index + 1 == |t.def.positions| ==>
        var o, style := t.def.positions[index].overrides, renderer.live[t.handle.value].style;
        && (o.kind.Some? ==> style.kind == o.kind.value) && (o.color.Some? ==> style.color == o.color.value)
        && (o.brush.Some? ==> style.brush == o.brush) && (o.size.Some? ==> style.size == o.size)
      ensures t.def.layer == Projectile && index + 1 < |t.def.positions| ==>
        var a, b := t.def.positions[index], t.def.positions[index + 1];
        var v := renderer.live[t.handle.value].state.value;
        && OnWay(a.position.0, b.position.0, v.position.0, a.frameNum, b.frameNum, frame)
        && OnWay(a.position.1, b.position.1, v.position.1, a.frameNum, b.frameNum, frame)
        && OnWay(a.direction, b.direction, v.direction, a.frameNum, b.frameNum, frame)
        && OnWay(a.alpha, b.alpha, v.alpha, a.frameNum, b.frameNum, frame)
        && v.points == None
    {
      index := LastKeyframe(t.def.positions, frame).value;
      assert InSync(t);
      if t.def.layer == Projectile && index + 1 < |t.def.positions| {
        ParsedOnWay(t.def, index, frame);
      }
    }

    static predicate NoneLate(markers: seq<Tracked>, frame: nat) {
      forall t <- markers :: Sorted(t.def.positions) ==> !StartsLate(t.def, frame)
    }

    ghost function Handles(): map<Tracked, Option<nat>>
      reads this`tracked, tracked
    {
      map t | t in tracked :: t.handle
    }

    method HideIf(t: Tracked, gone: bool)
      requires Synced() && t in tracked
      modifies t`handle, t`lastPosIndex, t`lastInterpFrame, renderer`live, this`owner
      ensures Synced()
      ensures Handles() == if gone then old(Handles())[t := None] else old(Handles())
    {
      if t.handle.Some? && gone {
        Hide(t);
      }
    }

    /** Takes down every marker whose definition is not to be kept. */
    method HideUnless(keep: MarkerDef -> bool)
      requires Valid()
      modifies tracked, renderer, this`owner
      ensures Valid()
      ensures Handles() == map t | t in tracked :: if keep(t.def) then old(Handles())[t] else None
    {
      ghost var before := Handles();
      for i := 0 to |markers|
        invariant Synced()
        invariant Handles() == HiddenAmong(before, markers[..i], keep)
      {
        HideNext(before, markers, i, keep);
        HideIf(markers[i], !keep(markers[i].def));
      }
      assert markers[..|markers|] == markers;
    }

    method SetSideFilter(side: Option<string>)
      requires Valid()
      modifies this`sideFilter, tracked, renderer, this`owner
      ensures Valid() && sideFilter == side
      ensures side != old(sideFilter) ==>
                Handles() == map t | t in tracked :: if MatchesSideFilter(t.def.side) then old(Handles())[t] else None
      ensures side == old(sideFilter) ==> Handles() == old(Handles())
    {
      if sideFilter == side {
        return;
      }
      sideFilter := side;
      HideUnless((def: MarkerDef) => side.None? || def.side == side.value || def.side == GLOBAL);
    }

    method SetBlacklist(players: set<int>)
      requires Valid()
      modifies this`blacklist, tracked, renderer, this`owner
      ensures Valid() && blacklist == players
      ensures Handles() == map t | t in tracked :: if IsBlacklisted(t.def.player) then None else old(Handles())[t]
    {
      blacklist := players;
      HideUnless((def: MarkerDef) => def.player == SYSTEM_PLAYER || def.player !in players);
    }

    /** Afterwards the renderer holds nothing. */
    method Clear()
      requires Valid()
      modifies this`markers, this`tracked, this`owner, tracked, renderer
      ensures Valid() && markers == [] && renderer.live == map[]
    {
      HideUnless(_ => false);
      assert forall t <- tracked :: t.handle == Handles()[t] == None;
      assert owner.Keys == {};
      assert renderer.live.Keys == {};
      markers, tracked := [], {};
    }

    /** After any sequence of operations the live handles are still exactly those the markers hold, and each
        shows what was last sent for its marker. */
    method Run(operations: seq<Operation>)
      requires Valid()
      modifies this, tracked, renderer
      ensures Valid()
    {
      for i := 0 to |operations|
        invariant Valid() && fresh(tracked - old(tracked))
      {
        match operations[i] {
          case UpdateFrame(frame) => var _ := UpdateFrame(frame);
          case SetSideFilter(side) => SetSideFilter(side);
          case SetBlacklist(players) => SetBlacklist(players);
          case LoadMarkers(defs) => LoadMarkers(defs);
          case Clear => Clear();
        }
      }
    }

    /** loadMarkers: a fresh marker for every drawable definition, in order. */
    method LoadMarkers(defs: seq<MarkerDef>)
      requires Valid()
      modifies this`markers, this`tracked, this`owner, tracked, renderer
      ensures Valid() && fresh(tracked) && renderer.live == map[]
      ensures |markers| == |Drawable(defs)|
      ensures forall i :: 0 <= i < |markers| ==>
                && markers[i].def == Drawable(defs)[i] && markers[i].handle == None
                && markers[i].active == markers[i].def.style
    {
      Clear();
      for i := 0 to |defs|
        invariant Valid() && fresh(tracked) && renderer.live == map[] && |markers| == |Drawable(defs[..i])|
        invariant forall j :: 0 <= j < |markers| ==>
                    && markers[j].def == Drawable(defs[..i])[j]
                    && markers[j].handle == None && markers[j].active == markers[j].def.style
      {
        assert defs[..i + 1][..i] == defs[..i];
        if !IsDrawable(defs[i]) {
          continue;
        }
        var t := new Tracked(defs[i]);
        markers, tracked := markers + [t], tracked + {t};
      }
      assert defs[..|defs|] == defs;
    }
  }

  datatype Operation =
    | UpdateFrame(frame: nat)
    | SetSideFilter(side: Option<string>)
    | SetBlacklist(players: set<int>)
    | LoadMarkers(defs: seq<MarkerDef>)
    | Clear

  ghost function HiddenAmong(handles: map<Tracked, Option<nat>>, among: seq<Tracked>, keep: MarkerDef -> bool)
    : map<Tracked, Option<nat>>
  {
    map t | t in handles :: if t in among && !keep(t.def) then None else handles[t]
  }

  lemma HideNext(handles: map<Tracked, Option<nat>>, markers: seq<Tracked>, i: nat, keep: MarkerDef -> bool)
    requires i < |markers| && markers[i] in handles
    ensures HiddenAmong(handles, markers[..i + 1], keep)
         == if keep(markers[i].def) then HiddenAmong(handles, markers[..i], keep)
            else HiddenAmong(handles, markers[..i], keep)[markers[i] := None]
  {
    assert forall t :: t in markers[..i + 1] <==> t in markers[..i] || t == markers[i];
  }

  /** Keyframes in order, the first no later than the marker's start. */
  predicate WellKeyed(def: MarkerDef) {
    Sorted(def.positions) && (def.positions != [] ==> def.positions[0].frameNum <= def.startFrame)
  }

  lemma LastKeyframeIs(positions: seq<Keyframe>, frame: nat, index: nat)
    requires index < |positions| && positions[index].frameNum <= frame
    ensures (forall j :: index < j < |positions| ==> positions[j].frameNum > frame) ==>
              LastKeyframe(positions, frame) == Some(index)
  {}
}
