/** The real-world time of a frame, interpolated between the samples of the manifest (ui/src/playback/time.ts).
    Frames and instants (in milliseconds) are reals, as JavaScript's numbers stand for them. */
module SystemTime {
  datatype Sample = Sample(frame: real, time: real)

  /** What is shown: the fixed text for no samples, an instant, or an invalid date. */
  datatype Shown = NoSamples | Instant(ms: real) | Invalid

  const DEFAULT_MS_PER_FRAME := 1000.0

  ghost predicate Sorted(times: seq<Sample>) {
    forall i, j | 0 <= i < j < |times| :: times[i].frame <= times[j].frame
  }

  ghost predicate StrictlyIncreasing(times: seq<Sample>) {
    forall i, j | 0 <= i < j < |times| :: times[i].frame < times[j].frame
  }

  ghost predicate NonDecreasingTimes(times: seq<Sample>) {
    forall i, j | 0 <= i <= j < |times| :: times[i].time <= times[j].time
  }

  /** idx is the last sample at or before frame, or the first sample if there is none. */
  ghost predicate IsBase(times: seq<Sample>, frame: real, idx: nat)
    requires idx < |times|
  {
    && (forall i | 0 <= i < |times| && times[i].frame <= frame :: i <= idx)
    && (times[idx].frame <= frame || idx == 0)
  }

  method Search(times: seq<Sample>, frame: real) returns (idx: nat)
    requires times != []
    ensures idx < |times|
    ensures Sorted(times) ==> IsBase(times, frame, idx)
  {
    var lo, hi := 0, |times| - 1;
    idx := 0;
    while lo <= hi
      invariant 0 <= lo <= hi + 1 <= |times| && idx < |times|
      invariant lo == 0 ==> idx == 0
      invariant lo > 0 ==> idx == lo - 1 && times[idx].frame <= frame
      invariant hi + 1 < |times| ==> times[hi + 1].frame > frame
    {
      var mid := (lo + hi) / 2;
      if times[mid].frame <= frame {
        idx := mid;
        lo := mid + 1;
      } else {
        hi := mid - 1;
      }
    }
  }

  /** Milliseconds per frame between two samples; not a number or infinite if they share a frame. */
  function RateBetween(a: Sample, b: Sample): Shown {
    if b.frame == a.frame then Invalid else Instant((b.time - a.time) / (b.frame - a.frame))
  }

  /** The rate from a sample on: that to the next one, else that from the previous one, else the default. */
  function Rate(times: seq<Sample>, idx: nat): Shown
    requires idx < |times|
  {
    if idx + 1 < |times| then RateBetween(times[idx], times[idx + 1])
    else if idx > 0 then RateBetween(times[idx - 1], times[idx])
    else Instant(DEFAULT_MS_PER_FRAME)
  }

  function OnLine(base: Sample, rate: real, frame: real): real {
    var delta := frame - base.frame;
    if delta == 0.0 then base.time else base.time + delta * rate
  }

  /** The instant of a frame, on the line through sample idx; at the sample itself no rate is needed. */
  function Extrapolated(times: seq<Sample>, frame: real, idx: nat): Shown
    requires idx < |times|
  {
    if frame == times[idx].frame then Instant(times[idx].time)
    else if Rate(times, idx).Instant? then Instant(OnLine(times[idx], Rate(times, idx).ms, frame))
    else Invalid
  }

  /** shown is what the line through the last sample at or before frame, or the first sample, gives. */
  ghost predicate Shows(times: seq<Sample>, frame: real, shown: Shown) {
    exists idx: nat :: idx < |times| && IsBase(times, frame, idx) && shown == Extrapolated(times, frame, idx)
  }

  method FormatSystemTime(frame: real, times: seq<Sample>) returns (shown: Shown)
    ensures times == [] ==> shown == NoSamples
    ensures times != [] && Sorted(times) ==> Shows(times, frame, shown)
    ensures |times| == 1 ==> shown == Instant(times[0].time + 1000.0 * (frame - times[0].frame))
  {
    if times == [] {
      return NoSamples;
    }
    var idx := Search(times, frame);
    var base := times[idx];
    var delta := frame - base.frame;
    if delta == 0.0 {
      return Instant(base.time);
    }
    var rate;
    if idx + 1 < |times| {
      rate := RateBetween(base, times[idx + 1]);
    } else if idx > 0 {
      rate := RateBetween(times[idx - 1], base);
    } else {
      rate := Instant(DEFAULT_MS_PER_FRAME);
    }
    shown := if rate.Instant? then Instant(base.time + delta * rate.ms) else Invalid;
  }

  /** Every sample's own frame shows exactly that sample. */
  lemma HitsEverySample(times: seq<Sample>, k: nat, shown: Shown)
    requires StrictlyIncreasing(times) && k < |times| && Shows(times, times[k].frame, shown)
    ensures shown == Instant(times[k].time)
  {
    assert IsBase(times, times[k].frame, k);
  }

  lemma SlopeNotNegative(dt: real, df: real)
    requires dt >= 0.0 && df > 0.0
    ensures dt / df >= 0.0
  {}

  lemma ProductMonotone(a: real, b: real, rate: real)
    requires a <= b && rate >= 0.0
    ensures a * rate <= b * rate
  {
    assert (b - a) * rate >= 0.0;
    assert (b - a) * rate == b * rate - a * rate;
  }

  lemma OnLineForward(base: Sample, rate: real, f: real, g: real)
    requires f <= g && rate >= 0.0
    ensures OnLine(base, rate, f) <= OnLine(base, rate, g)
  {
    ProductMonotone(f - base.frame, g - base.frame, rate);
    assert 0.0 * rate == 0.0;
  }

  lemma RateNotNegative(times: seq<Sample>, idx: nat)
    requires StrictlyIncreasing(times) && NonDecreasingTimes(times) && idx < |times|
    ensures Rate(times, idx).Instant? && Rate(times, idx).ms >= 0.0
  {
    if idx + 1 < |times| {
      SlopeNotNegative(times[idx + 1].time - times[idx].time, times[idx + 1].frame - times[idx].frame);
    } else if idx > 0 {
      SlopeNotNegative(times[idx].time - times[idx - 1].time, times[idx].frame - times[idx - 1].frame);
    }
  }

  /** From its sample on, a line never goes below the sample. */
  lemma AboveItsSample(times: seq<Sample>, frame: real, idx: nat)
    requires StrictlyIncreasing(times) && NonDecreasingTimes(times)
    requires idx < |times| && times[idx].frame <= frame
    ensures Extrapolated(times, frame, idx).Instant? && Extrapolated(times, frame, idx).ms >= times[idx].time
  {
    RateNotNegative(times, idx);
    OnLineForward(times[idx], Rate(times, idx).ms, times[idx].frame, frame);
  }

  lemma MeetsNextSample(a: Sample, b: Sample)
    requires a.frame < b.frame
    ensures OnLine(a, RateBetween(a, b).ms, b.frame) == b.time
  {}

  /** Before the next sample, a line never goes above that sample. */
  lemma BelowNextSample(times: seq<Sample>, frame: real, idx: nat)
    requires StrictlyIncreasing(times) && NonDecreasingTimes(times)
    requires idx + 1 < |times| && frame <= times[idx + 1].frame
    ensures Extrapolated(times, frame, idx).Instant? && Extrapolated(times, frame, idx).ms <= times[idx + 1].time
  {
    RateNotNegative(times, idx);
    OnLineForward(times[idx], Rate(times, idx).ms, frame, times[idx + 1].frame);
    MeetsNextSample(times[idx], times[idx + 1]);
  }

  lemma OnOneLine(times: seq<Sample>, f: real, g: real, idx: nat)
    requires StrictlyIncreasing(times) && NonDecreasingTimes(times) && idx < |times| && f <= g
    ensures Extrapolated(times, f, idx).Instant? && Extrapolated(times, g, idx).Instant?
    ensures Extrapolated(times, f, idx).ms <= Extrapolated(times, g, idx).ms
  {
    RateNotNegative(times, idx);
    OnLineForward(times[idx], Rate(times, idx).ms, f, g);
  }

  /** The instant lies on the line through two samples. */
  predicate Collinear(a: Sample, b: Sample, frame: real, ms: real) {
    (ms - a.time) * (b.frame - a.frame) == (b.time - a.time) * (frame - a.frame)
  }

  lemma LineThrough(a: Sample, b: Sample, base: Sample, frame: real)
    requires a.frame < b.frame && (base == a || base == b)
    ensures Collinear(a, b, frame, OnLine(base, RateBetween(a, b).ms, frame))
  {
    var df, dt, delta := b.frame - a.frame, b.time - a.time, frame - base.frame;
    var rate := RateBetween(a, b).ms;
    assert rate * df == dt;
    Reassociate(delta, rate, df);
    assert delta * rate * df == delta * dt;
    if delta != 0.0 {
      Distribute(base.time - a.time, delta * rate, df);
    }
    if base == b {
      assert dt * (frame - a.frame) == dt * df + dt * delta;
    }
  }

  lemma Reassociate(x: real, y: real, z: real)
    ensures x * y * z == x * (y * z)
  {}

  lemma Distribute(x: real, y: real, z: real)
    ensures (x + y) * z == x * z + y * z
  {}

  /** Between two neighbouring samples the instant is interpolated linearly; the first segment also extends to
      all earlier frames, and the last one to all later frames. */
  lemma LinearBetweenSamples(times: seq<Sample>, frame: real, shown: Shown, i: nat)
    requires StrictlyIncreasing(times) && Shows(times, frame, shown) && i + 1 < |times|
    requires i == 0 || times[i].frame <= frame
    requires i + 2 == |times| || frame < times[i + 1].frame
    ensures shown.Instant? && Collinear(times[i], times[i + 1], frame, shown.ms)
  {
    var idx: nat :| idx < |times| && IsBase(times, frame, idx) && shown == Extrapolated(times, frame, idx);
    assert idx == i || idx == i + 1 == |times| - 1;
    LineThrough(times[i], times[i + 1], times[idx], frame);
  }

  /** For samples in order, the date shown is invalid exactly beyond one end of the samples, if the two samples there
      share a frame. */
  lemma InvalidExactly(times: seq<Sample>, frame: real, shown: Shown)
    requires times != [] && Sorted(times) && Shows(times, frame, shown)
    ensures var n := |times|;
      shown.Invalid? <==> n >= 2 && ((frame < times[0].frame && times[0].frame == times[1].frame)
                                     || (frame > times[n - 1].frame && times[n - 1].frame == times[n - 2].frame))
  {
    var idx: nat :| idx < |times| && IsBase(times, frame, idx) && shown == Extrapolated(times, frame, idx);
    if idx + 1 < |times| && idx > 0 {
      assert times[idx + 1].frame > frame;
    }
  }

  /** Later frames never show earlier instants: within a segment, across segments, and beyond both ends. */
  lemma NeverRunsBackwards(times: seq<Sample>, f: real, shownF: Shown, g: real, shownG: Shown)
    requires StrictlyIncreasing(times) && NonDecreasingTimes(times) && f <= g
    requires Shows(times, f, shownF) && Shows(times, g, shownG)
    ensures shownF.Instant? && shownG.Instant? && shownF.ms <= shownG.ms
  {
    var i: nat :| i < |times| && IsBase(times, f, i) && shownF == Extrapolated(times, f, i);
    var j: nat :| j < |times| && IsBase(times, g, j) && shownG == Extrapolated(times, g, j);
    if i == j {
      OnOneLine(times, f, g, i);
    } else {
      assert i < j && times[j].frame <= g && f < times[i + 1].frame;
      BelowNextSample(times, f, i);
      AboveItsSample(times, g, j);
    }
  }

  /** For samples at strictly increasing frames, time never runs backwards exactly if their times never do. */
  lemma RunsForwardExactly(times: seq<Sample>)
    requires StrictlyIncreasing(times)
    ensures NonDecreasingTimes(times) <==>
      forall f, shownF, g, shownG | f <= g && Shows(times, f, shownF) && Shows(times, g, shownG) ::
        shownF.Instant? && shownG.Instant? && shownF.ms <= shownG.ms
  {
    if NonDecreasingTimes(times) {
      forall f, shownF, g, shownG | f <= g && Shows(times, f, shownF) && Shows(times, g, shownG)
        ensures shownF.Instant? && shownG.Instant? && shownF.ms <= shownG.ms
      {
        NeverRunsBackwards(times, f, shownF, g, shownG);
      }
    } else {
      var i, j :| 0 <= i <= j < |times| && times[i].time > times[j].time;
      assert IsBase(times, times[i].frame, i) && IsBase(times, times[j].frame, j);
      assert Shows(times, times[i].frame, Instant(times[i].time));
      assert Shows(times, times[j].frame, Instant(times[j].time));
    }
  }
}
