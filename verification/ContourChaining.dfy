/** Joining contour segments into polylines (internal/maptool/contour.go, chainSegments).

    Segments are matched by endpoint keys, so the segments form a multigraph over keys.
    The program greedily walks trails through it; the lemmas here say what those trails
    are: an exact decomposition of the segments, with an open end exactly at the keys
    of odd degree. */
module ContourChaining {
  import opened Common

  datatype Point = Point(x: real, y: real)
  datatype Segment = Segment(a: Point, b: Point)
  datatype Key = Key(x: int, y: int)

  const PRECISION := 0.001  // metres

  function PointKey(p: Point): Key {
    Key(Truncate(p.x / PRECISION), Truncate(p.y / PRECISION))
  }

  // ----- What keys stand for

  /** Coordinate v lies in millimetre cell n. Around 0, which is truncated to from both sides, the cell is two
      millimetres wide. */
  predicate InCell(v: real, n: int) {
    if n == 0 then -0.001 < v < 0.001
    else if n > 0 then 0.001 * n as real <= v < 0.001 * (n + 1) as real
    else 0.001 * (n - 1) as real < v <= 0.001 * n as real
  }

  lemma CellIsTruncated(v: real, n: int)
    ensures Truncate(v / PRECISION) == n <==> InCell(v, n)
  {
    var q := v / PRECISION;
    assert v == 0.001 * q;
    TruncateMeans(q, n);
  }

  /** A point's key is the cell that the point lies in. */
  lemma KeyIsCell(p: Point, k: Key)
    ensures PointKey(p) == k <==> InCell(p.x, k.x) && InCell(p.y, k.y)
  {
    CellIsTruncated(p.x, k.x);
    CellIsTruncated(p.y, k.y);
  }

  ghost predicate SameCell(p: Point, q: Point) {
    exists k: Key :: AtCell(p, k) && AtCell(q, k)
  }

  predicate AtCell(p: Point, k: Key) {
    InCell(p.x, k.x) && InCell(p.y, k.y)
  }

  /** Points have one key exactly if they lie in one cell. */
  lemma SameKeySameCell(p: Point, q: Point)
    ensures PointKey(p) == PointKey(q) <==> SameCell(p, q)
  {
    KeyIsCell(p, PointKey(p));
    KeyIsCell(q, PointKey(p));
    if PointKey(p) == PointKey(q) {
      assert AtCell(p, PointKey(p)) && AtCell(q, PointKey(p));
    }
    if k :| AtCell(p, k) && AtCell(q, k) {
      KeyIsCell(p, k);
      KeyIsCell(q, k);
    }
  }

  /** Two millimetres apart at most, in either direction. */
  predicate Near(p: Point, q: Point) {
    -0.002 < p.x - q.x < 0.002 && -0.002 < p.y - q.y < 0.002
  }

  lemma SameKeyNear(p: Point, q: Point)
    requires PointKey(p) == PointKey(q)
    ensures Near(p, q)
  {
    KeyIsCell(p, PointKey(p));
    KeyIsCell(q, PointKey(p));
  }

  predicate Incident(s: Segment, k: Key) {
    PointKey(s.a) == k || PointKey(s.b) == k
  }

  type Polyline = seq<Point>

  // ----- What a decomposition into polylines is

  /** The step from p to q runs along s, in either direction: the keys match at both ends and
      at least one of the two points is the segment's own. */
  predicate Follows(s: Segment, p: Point, q: Point) {
    || (PointKey(p) == PointKey(s.a) && PointKey(q) == PointKey(s.b) && (p == s.a || q == s.b))
    || (PointKey(p) == PointKey(s.b) && PointKey(q) == PointKey(s.a) && (p == s.b || q == s.a))
  }

  /** Step j of the line runs along segment trail[j]. */
  ghost predicate Traces(segs: seq<Segment>, line: Polyline, trail: seq<nat>) {
    && |line| == |trail| + 1
    && (forall j :: 0 <= j < |trail| ==> trail[j] < |segs| && Follows(segs[trail[j]], line[j], line[j + 1]))
  }

  /** From p to q along s: at least one of them is an end of s, and the other lies near the other end. */
  predicate StepsAlong(s: Segment, p: Point, q: Point) {
    || (p == s.a && Near(q, s.b)) || (q == s.b && Near(p, s.a))
    || (p == s.b && Near(q, s.a)) || (q == s.a && Near(p, s.b))
  }

  /** Step j of the line runs along segment trail[j], in metres. */
  ghost predicate StaysNear(segs: seq<Segment>, line: Polyline, trail: seq<nat>) {
    && |line| == |trail| + 1
    && (forall j :: 0 <= j < |trail| ==> trail[j] < |segs| && StepsAlong(segs[trail[j]], line[j], line[j + 1]))
  }

  lemma TracesStaysNear(segs: seq<Segment>, line: Polyline, trail: seq<nat>)
    requires Traces(segs, line, trail)
    ensures StaysNear(segs, line, trail)
  {
    forall j | 0 <= j < |trail|
      ensures StepsAlong(segs[trail[j]], line[j], line[j + 1])
    {
      var s, p, q := segs[trail[j]], line[j], line[j + 1];
      if PointKey(p) == PointKey(s.a) && PointKey(q) == PointKey(s.b) && (p == s.a || q == s.b) {
        SameKeyNear(p, s.a);
        SameKeyNear(q, s.b);
      } else {
        SameKeyNear(p, s.b);
        SameKeyNear(q, s.a);
      }
    }
  }

  /** How often each segment index occurs in the trails. */
  ghost function Uses(trails: seq<seq<nat>>): multiset<nat> {
    if trails == [] then multiset{} else Uses(trails[..|trails| - 1]) + multiset(trails[|trails| - 1])
  }

  /** Every polyline is a nonempty walk along segments, and every segment is walked exactly once. */
  ghost predicate Decomposes(segs: seq<Segment>, lines: seq<Polyline>, trails: seq<seq<nat>>) {
    && |lines| == |trails|
    && (forall i :: 0 <= i < |lines| ==> trails[i] != [] && Traces(segs, lines[i], trails[i]))
    && (forall i :: 0 <= i < |segs| ==> Uses(trails)[i] == 1)
  }

  ghost predicate AllStayNear(segs: seq<Segment>, lines: seq<Polyline>, trails: seq<seq<nat>>) {
    |lines| == |trails| && forall i :: 0 <= i < |lines| ==> StaysNear(segs, lines[i], trails[i])
  }

  lemma DecomposedStayNear(segs: seq<Segment>, lines: seq<Polyline>, trails: seq<seq<nat>>)
    requires Decomposes(segs, lines, trails)
    ensures AllStayNear(segs, lines, trails)
  {
    forall i | 0 <= i < |lines| {
      TracesStaysNear(segs, lines[i], trails[i]);
    }
  }

  /** The line runs in the direction of a segment that it was begun with, from that segment's a to its b. */
  ghost predicate RunsAlong(segs: seq<Segment>, line: Polyline, trail: seq<nat>) {
    |line| == |trail| + 1 && exists j :: 0 <= j < |trail| && IsStep(segs, line, trail, j)
  }

  predicate IsStep(segs: seq<Segment>, line: Polyline, trail: seq<nat>, j: nat)
    requires |line| == |trail| + 1 && j < |trail|
  {
    trail[j] < |segs| && line[j] == segs[trail[j]].a && line[j + 1] == segs[trail[j]].b
  }

  ghost predicate AllRunAlong(segs: seq<Segment>, lines: seq<Polyline>, trails: seq<seq<nat>>) {
    |lines| == |trails| && forall i :: 0 <= i < |lines| ==> RunsAlong(segs, lines[i], trails[i])
  }

  function FirstKey(line: Polyline): Key
    requires line != []
  {
    PointKey(line[0])
  }

  function LastKey(line: Polyline): Key
    requires line != []
  {
    PointKey(line[|line| - 1])
  }

  ghost predicate Visits(line: Polyline, k: Key) {
    exists p :: p in line && PointKey(p) == k
  }

  /** Walks are maximal: no later polyline passes through an end of an earlier one. */
  ghost predicate Separated(lines: seq<Polyline>) {
    && (forall i :: 0 <= i < |lines| ==> lines[i] != [])
    && (forall i, j :: 0 <= i < j < |lines| ==>
          !Visits(lines[j], FirstKey(lines[i])) && !Visits(lines[j], LastKey(lines[i])))
  }

  /** No later polyline comes into a cell where an earlier one ends. */
  ghost predicate EndsApart(lines: seq<Polyline>) {
    forall i, j, p :: 0 <= i < j < |lines| && lines[i] != [] && p in lines[j] ==>
      !SameCell(p, lines[i][0]) && !SameCell(p, lines[i][|lines[i]| - 1])
  }

  lemma SeparatedEndsApart(lines: seq<Polyline>)
    requires Separated(lines)
    ensures EndsApart(lines)
  {
    forall i, j, p | 0 <= i < j < |lines| && lines[i] != [] && p in lines[j]
      ensures !SameCell(p, lines[i][0]) && !SameCell(p, lines[i][|lines[i]| - 1])
    {
      assert !Visits(lines[j], FirstKey(lines[i])) && !Visits(lines[j], LastKey(lines[i]));
      SameKeySameCell(p, lines[i][0]);
      SameKeySameCell(p, lines[i][|lines[i]| - 1]);
    }
  }

  // ----- The program

  type Adjacency = map<Key, seq<nat>>

  function Neighbours(adj: Adjacency, k: Key): seq<nat> {
    if k in adj then adj[k] else []
  }

  /** adj lists, for every key, exactly the first n segments that touch it. */
  ghost predicate IsAdjacency(segs: seq<Segment>, n: nat, adj: Adjacency)
    requires n <= |segs|
  {
    forall k, i: nat {:trigger i in Neighbours(adj, k)} ::
      i in Neighbours(adj, k) <==> i < n && Incident(segs[i], k)
  }

  function Listed(adj: Adjacency, k: Key, i: nat): Adjacency {
    adj[k := Neighbours(adj, k) + [i]]
  }

  lemma ListedUnder(adj: Adjacency, k0: Key, i: nat, k: Key, n: nat)
    ensures n in Neighbours(Listed(adj, k0, i), k) <==> n in Neighbours(adj, k) || (k == k0 && n == i)
  {}

  lemma ListSegment(segs: seq<Segment>, i: nat, adj: Adjacency)
    requires i < |segs| && IsAdjacency(segs, i, adj)
    ensures IsAdjacency(segs, i + 1, Listed(Listed(adj, PointKey(segs[i].a), i), PointKey(segs[i].b), i))
  {
    var ka, kb := PointKey(segs[i].a), PointKey(segs[i].b);
    var adj1 := Listed(adj, ka, i);
    forall k, n: nat
      ensures n in Neighbours(Listed(adj1, kb, i), k) <==> n < i + 1 && Incident(segs[n], k)
    {
      assert n in Neighbours(adj, k) <==> n < i && Incident(segs[n], k);
      ListedUnder(adj, ka, i, k, n);
      ListedUnder(adj1, kb, i, k, n);
    }
  }

  method BuildAdjacency(segs: seq<Segment>) returns (adj: Adjacency)
    ensures IsAdjacency(segs, |segs|, adj)
  {
    adj := map[];
    for i := 0 to |segs|
      invariant IsAdjacency(segs, i, adj)
    {
      ListSegment(segs, i, adj);
      adj := Listed(adj, PointKey(segs[i].a), i);
      adj := Listed(adj, PointKey(segs[i].b), i);
    }
  }

  /** The first segment at key k that no polyline has claimed yet. */
  method FindUnused(candidates: seq<nat>, used: array<bool>) returns (r: Option<nat>)
    requires forall c :: 0 <= c < |candidates| ==> candidates[c] < used.Length
    ensures r.Some? ==> r.value in candidates && r.value < used.Length && !used[r.value]
    ensures r.None? ==> forall c :: 0 <= c < |candidates| ==> used[candidates[c]]
  {
    for c := 0 to |candidates|
      invariant forall b :: 0 <= b < c ==> used[candidates[b]]
    {
      if !used[candidates[c]] {
        return Some(candidates[c]);
      }
    }
    r := None;
  }

  ghost function Mark(b: bool): nat {
    if b then 1 else 0
  }

  /** No unclaimed segment touches k. */
  ghost predicate Exhausted(segs: seq<Segment>, used: seq<bool>, k: Key)
    requires |used| == |segs|
  {
    forall i :: 0 <= i < |segs| && !used[i] ==> !Incident(segs[i], k)
  }

  /** From (line0, trail0) to (line, trail), the segments newly claimed are those added to the trail,
      and every point added belongs to a segment that was unclaimed. */
  ghost predicate Extended(segs: seq<Segment>, used0: seq<bool>, used: seq<bool>,
                           line0: Polyline, trail0: seq<nat>, line: Polyline, trail: seq<nat>) {
    && |used0| == |used| == |segs|
    && line0 != [] && line != []
    && Traces(segs, line, trail)
    && (forall i :: 0 <= i < |segs| ==> Mark(used[i]) - multiset(trail)[i] == Mark(used0[i]) - multiset(trail0)[i])
    && (forall i :: 0 <= i < |segs| && used0[i] ==> used[i])
    && (forall k :: Exhausted(segs, used0, k) && Visits(line, k) ==> Visits(line0, k))
  }

  lemma ExtendedTransitive(segs: seq<Segment>, u0: seq<bool>, u1: seq<bool>, u2: seq<bool>,
                           l0: Polyline, t0: seq<nat>, l1: Polyline, t1: seq<nat>, l2: Polyline, t2: seq<nat>)
    requires Extended(segs, u0, u1, l0, t0, l1, t1) && Extended(segs, u1, u2, l1, t1, l2, t2)
    ensures Extended(segs, u0, u2, l0, t0, l2, t2)
  {
    forall k | Exhausted(segs, u0, k) && Visits(l2, k)
      ensures Visits(l0, k)
    {
      assert Exhausted(segs, u1, k);
    }
  }

  lemma AppendStep(segs: seq<Segment>, used: seq<bool>, line: Polyline, trail: seq<nat>, idx: nat, p: Point)
    requires |used| == |segs| && idx < |segs| && !used[idx]
    requires Traces(segs, line, trail) && Follows(segs[idx], line[|line| - 1], p)
    ensures Extended(segs, used, used[idx := true], line, trail, line + [p], trail + [idx])
  {
    assert forall k :: PointKey(p) == k ==> Incident(segs[idx], k);
  }

  lemma PrependStep(segs: seq<Segment>, used: seq<bool>, line: Polyline, trail: seq<nat>, idx: nat, p: Point)
    requires |used| == |segs| && idx < |segs| && !used[idx]
    requires Traces(segs, line, trail) && Follows(segs[idx], p, line[0])
    ensures Extended(segs, used, used[idx := true], line, trail, [p] + line, [idx] + trail)
  {
    assert forall k :: PointKey(p) == k ==> Incident(segs[idx], k);
  }

  /** The number of unclaimed segments: every extension step lowers it. */
  ghost function Free(used: seq<bool>): nat {
    if used == [] then 0 else Free(used[..|used| - 1]) + 1 - Mark(used[|used| - 1])
  }

  lemma ClaimLowersFree(used: seq<bool>, idx: nat)
    requires idx < |used| && !used[idx]
    ensures Free(used[idx := true]) == Free(used) - 1
  {
    var n := |used| - 1;
    if idx < n {
      ClaimLowersFree(used[..n], idx);
      assert used[idx := true][..n] == used[..n][idx := true];
    } else {
      assert used[idx := true][..n] == used[..n];
    }
  }

  lemma ForwardStep(segs: seq<Segment>, used0: seq<bool>, used: seq<bool>, line0: Polyline, trail0: seq<nat>,
                    line: Polyline, trail: seq<nat>, idx: nat, p: Point)
    requires Extended(segs, used0, used, line0, trail0, line, trail)
    requires idx < |segs| && !used[idx] && Follows(segs[idx], line[|line| - 1], p)
    ensures Extended(segs, used0, used[idx := true], line0, trail0, line + [p], trail + [idx])
    ensures Free(used[idx := true]) < Free(used)
  {
    AppendStep(segs, used, line, trail, idx, p);
    ExtendedTransitive(segs, used0, used, used[idx := true], line0, trail0, line, trail, line + [p], trail + [idx]);
    ClaimLowersFree(used, idx);
  }

  lemma BackwardStep(segs: seq<Segment>, used0: seq<bool>, used: seq<bool>, line0: Polyline, trail0: seq<nat>,
                     line: Polyline, trail: seq<nat>, idx: nat, p: Point)
    requires Extended(segs, used0, used, line0, trail0, line, trail)
    requires idx < |segs| && !used[idx] && Follows(segs[idx], p, line[0])
    ensures Extended(segs, used0, used[idx := true], line0, trail0, [p] + line, [idx] + trail)
    ensures Free(used[idx := true]) < Free(used)
  {
    PrependStep(segs, used, line, trail, idx, p);
    ExtendedTransitive(segs, used0, used, used[idx := true], line0, trail0, line, trail, [p] + line, [idx] + trail);
    ClaimLowersFree(used, idx);
  }

  lemma ListedTouch(segs: seq<Segment>, adj: Adjacency, k: Key)
    requires IsAdjacency(segs, |segs|, adj)
    ensures forall c :: 0 <= c < |Neighbours(adj, k)| ==>
              Neighbours(adj, k)[c] < |segs| && Incident(segs[Neighbours(adj, k)[c]], k)
  {
    forall c | 0 <= c < |Neighbours(adj, k)|
      ensures Neighbours(adj, k)[c] < |segs| && Incident(segs[Neighbours(adj, k)[c]], k)
    {
      assert Neighbours(adj, k)[c] in Neighbours(adj, k);
    }
  }

  lemma NothingUnusedAt(segs: seq<Segment>, adj: Adjacency, used: seq<bool>, k: Key)
    requires |used| == |segs| && IsAdjacency(segs, |segs|, adj)
    requires forall c :: 0 <= c < |Neighbours(adj, k)| ==> Neighbours(adj, k)[c] < |used| && used[Neighbours(adj, k)[c]]
    ensures Exhausted(segs, used, k)
  {
    forall i | 0 <= i < |segs| && Incident(segs[i], k)
      ensures used[i]
    {
      assert i in Neighbours(adj, k);
    }
  }

  predicate EndsWith<T(==)>(s: seq<T>, end: seq<T>) {
    |end| <= |s| && s[|s| - |end|..] == end
  }

  lemma PrependKeepsEnd<T>(x: T, s: seq<T>, end: seq<T>)
    requires EndsWith(s, end)
    ensures EndsWith([x] + s, end)
  {
    assert ([x] + s)[|[x] + s| - |end|..] == s[|s| - |end|..];
  }

  method ExtendForward(segs: seq<Segment>, adj: Adjacency, used: array<bool>, line0: Polyline, ghost trail0: seq<nat>)
    returns (line: Polyline, ghost trail: seq<nat>)
    requires used.Length == |segs| && IsAdjacency(segs, |segs|, adj)
    requires Traces(segs, line0, trail0)
    modifies used
    ensures Extended(segs, old(used[..]), used[..], line0, trail0, line, trail)
    ensures Exhausted(segs, used[..], LastKey(line))
    ensures line0 <= line && trail0 <= trail
  {
    line, trail := line0, trail0;
    while true
      invariant line0 <= line && trail0 <= trail
      invariant Extended(segs, old(used[..]), used[..], line0, trail0, line, trail)
      decreases Free(used[..])
    {
      var k := PointKey(line[|line| - 1]);
      ListedTouch(segs, adj, k);
      var found := FindUnused(Neighbours(adj, k), used);
      if found.None? {
        NothingUnusedAt(segs, adj, used[..], k);
        break;
      }
      var idx := found.value;
      var p := if PointKey(segs[idx].a) == k then segs[idx].b else segs[idx].a;
      ForwardStep(segs, old(used[..]), used[..], line0, trail0, line, trail, idx, p);
      ghost var u := used[..];
      used[idx] := true;
      assert used[..] == u[idx := true];
      line, trail := line + [p], trail + [idx];
    }
  }

  method ExtendBackward(segs: seq<Segment>, adj: Adjacency, used: array<bool>, line0: Polyline, ghost trail0: seq<nat>)
    returns (line: Polyline, ghost trail: seq<nat>)
    requires used.Length == |segs| && IsAdjacency(segs, |segs|, adj)
    requires Traces(segs, line0, trail0)
    modifies used
    ensures Extended(segs, old(used[..]), used[..], line0, trail0, line, trail)
    ensures Exhausted(segs, used[..], FirstKey(line))
    ensures LastKey(line) == LastKey(line0)
    ensures EndsWith(line, line0) && EndsWith(trail, trail0)
  {
    line, trail := line0, trail0;
    while true
      invariant EndsWith(line, line0) && EndsWith(trail, trail0)
      invariant Extended(segs, old(used[..]), used[..], line0, trail0, line, trail)
      invariant LastKey(line) == LastKey(line0)
      decreases Free(used[..])
    {
      var k := PointKey(line[0]);
      ListedTouch(segs, adj, k);
      var found := FindUnused(Neighbours(adj, k), used);
      if found.None? {
        NothingUnusedAt(segs, adj, used[..], k);
        break;
      }
      var idx := found.value;
      var p := if PointKey(segs[idx].a) == k then segs[idx].b else segs[idx].a;
      BackwardStep(segs, old(used[..]), used[..], line0, trail0, line, trail, idx, p);
      ghost var u := used[..];
      used[idx] := true;
      assert used[..] == u[idx := true];
      PrependKeepsEnd(p, line, line0);
      PrependKeepsEnd(idx, trail, trail0);
      line, trail := [p] + line, [idx] + trail;
    }
  }

  /** Both ends of every finished polyline are used up. */
  ghost predicate EndsExhausted(segs: seq<Segment>, used: seq<bool>, lines: seq<Polyline>) {
    && |used| == |segs|
    && (forall i :: 0 <= i < |lines| ==>
          && lines[i] != []
          && Exhausted(segs, used, FirstKey(lines[i]))
          && Exhausted(segs, used, LastKey(lines[i])))
  }

  /** What holds between polylines: those finished form a partial decomposition. */
  ghost predicate Progress(segs: seq<Segment>, used: seq<bool>, lines: seq<Polyline>, trails: seq<seq<nat>>) {
    && |used| == |segs|
    && |lines| == |trails|
    && (forall i :: 0 <= i < |lines| ==> trails[i] != [] && Traces(segs, lines[i], trails[i]))
    && (forall i :: 0 <= i < |segs| ==> Uses(trails)[i] == Mark(used[i]))
    && Separated(lines)
    && EndsExhausted(segs, used, lines)
  }

  lemma FinishPolyline(segs: seq<Segment>, used0: seq<bool>, used: seq<bool>, lines: seq<Polyline>,
                       trails: seq<seq<nat>>, i: nat, line: Polyline, trail: seq<nat>)
    requires Progress(segs, used0, lines, trails)
    requires i < |segs| && !used0[i]
    requires Extended(segs, used0[i := true], used, [segs[i].a, segs[i].b], [i], line, trail)
    requires Exhausted(segs, used, FirstKey(line)) && Exhausted(segs, used, LastKey(line))
    ensures Progress(segs, used, lines + [line], trails + [trail])
    ensures |used| == |used0| && used[i] && forall j :: 0 <= j < |used| && used0[j] ==> used[j]
  {
    assert (trails + [trail])[..|trails|] == trails;
    assert used0[i := true][i];
    assert multiset([i])[i] == 1;
    assert multiset(trail)[i] == 1;
    assert i in trail;
    forall j, k | 0 <= j < |lines| && (k == FirstKey(lines[j]) || k == LastKey(lines[j]))
      ensures !Visits(line, k)
    {
      assert Exhausted(segs, used0, k);
      assert Exhausted(segs, used0[i := true], k);
      assert !Incident(segs[i], k);
      assert !Visits([segs[i].a, segs[i].b], k);
    }
  }

  lemma NothingFinished(segs: seq<Segment>, used: seq<bool>)
    requires |used| == |segs| && forall i :: 0 <= i < |used| ==> !used[i]
    ensures Progress(segs, used, [], []) && AllRunAlong(segs, [], [])
  {}

  lemma AllFinished(segs: seq<Segment>, used: seq<bool>, lines: seq<Polyline>, trails: seq<seq<nat>>)
    requires Progress(segs, used, lines, trails) && forall i :: 0 <= i < |segs| ==> used[i]
    ensures Decomposes(segs, lines, trails) && AllStayNear(segs, lines, trails)
    ensures Separated(lines) && EndsApart(lines)
  {
    assert Decomposes(segs, lines, trails);
    DecomposedStayNear(segs, lines, trails);
    SeparatedEndsApart(lines);
  }

  lemma LaterSteps(segs: seq<Segment>, i: nat, line: Polyline, trail: seq<nat>, line': Polyline, trail': seq<nat>)
    requires i < |segs| && [segs[i].a, segs[i].b] <= line && [i] <= trail
    requires EndsWith(line', line) && EndsWith(trail', trail)
    requires |line| == |trail| + 1 && |line'| == |trail'| + 1
    ensures RunsAlong(segs, line', trail')
  {
    var j := |trail'| - |trail|;
    assert line'[j..] == line && trail'[j..] == trail;
    assert trail'[j] == trail'[j..][0] == i;
    assert line'[j] == line'[j..][0] == segs[i].a && line'[j + 1] == line'[j..][1] == segs[i].b;
    assert IsStep(segs, line', trail', j);
  }

  /** A polyline grows from segment i in both directions. */
  method ExtendBothWays(segs: seq<Segment>, adj: Adjacency, used: array<bool>, i: nat)
    returns (line: Polyline, ghost trail: seq<nat>)
    requires used.Length == |segs| && IsAdjacency(segs, |segs|, adj) && i < |segs|
    modifies used
    ensures Extended(segs, old(used[..]), used[..], [segs[i].a, segs[i].b], [i], line, trail)
    ensures Exhausted(segs, used[..], FirstKey(line)) && Exhausted(segs, used[..], LastKey(line))
    ensures RunsAlong(segs, line, trail)
  {
    ghost var line0, trail0 := [segs[i].a, segs[i].b], [i];
    line, trail := ExtendForward(segs, adj, used, [segs[i].a, segs[i].b], trail0);
    ghost var usedF, lineF, trailF := used[..], line, trail;
    line, trail := ExtendBackward(segs, adj, used, line, trail);
    LaterSteps(segs, i, lineF, trailF, line, trail);
    ExtendedTransitive(segs, old(used[..]), usedF, used[..], line0, trail0, lineF, trailF, line, trail);
  }

  method ChainSegments(segs: seq<Segment>) returns (lines: seq<Polyline>)
    ensures exists trails ::
              Decomposes(segs, lines, trails) && AllStayNear(segs, lines, trails) && AllRunAlong(segs, lines, trails)
    ensures Separated(lines) && EndsApart(lines)
  {
    hide Extended, Exhausted, RunsAlong, IsAdjacency, Decomposes, AllStayNear, Separated, EndsApart, Progress;
    if |segs| == 0 {
      NothingFinished(segs, []);
      AllFinished(segs, [], [], []);
      return [];
    }
    var adj := BuildAdjacency(segs);
    var used := new bool[|segs|](_ => false);
    lines := [];
    ghost var trails: seq<seq<nat>> := [];
    NothingFinished(segs, used[..]);
    for i := 0 to |segs|
      invariant Progress(segs, used[..], lines, trails)
      invariant AllRunAlong(segs, lines, trails)
      invariant forall j :: 0 <= j < i ==> used[j]
    {
      if used[i] {
        continue;
      }
      ghost var used0 := used[..];
      used[i] := true;
      assert used[..] == used0[i := true];
      var line, trail := ExtendBothWays(segs, adj, used, i);
      FinishPolyline(segs, used0, used[..], lines, trails, i, line, trail);
      lines, trails := lines + [line], trails + [trail];
    }
    AllFinished(segs, used[..], lines, trails);
  }

  // ----- What it means: degrees and open ends

  ghost function EndsAt(s: Segment, k: Key): nat {
    Mark(PointKey(s.a) == k) + Mark(PointKey(s.b) == k)
  }

  /** How many segment ends carry key k. */
  ghost function Degree(segs: seq<Segment>, k: Key): nat {
    if segs == [] then 0 else Degree(segs[..|segs| - 1], k) + EndsAt(segs[|segs| - 1], k)
  }

  ghost predicate OpenEndAt(line: Polyline, k: Key)
    requires line != []
  {
    FirstKey(line) != LastKey(line) && (FirstKey(line) == k || LastKey(line) == k)
  }

  /** How many polylines that are not closed have an end at k. */
  ghost function OpenEnds(lines: seq<Polyline>, k: Key): nat
    requires forall i :: 0 <= i < |lines| ==> lines[i] != []
  {
    if lines == [] then 0
    else OpenEnds(lines[..|lines| - 1], k) + Mark(OpenEndAt(lines[|lines| - 1], k))
  }

  /** m * ends, for the 0, 1 or 2 ends a segment can have at a key. */
  ghost function Times(m: nat, ends: nat): nat {
    if ends == 0 then 0 else if ends == 1 then m else m + m
  }

  /** The ends at k of the first n segments, each weighted by how often it is used. */
  ghost function Weighted(segs: seq<Segment>, uses: multiset<nat>, n: nat, k: Key): nat
    requires n <= |segs|
  {
    if n == 0 then 0 else Weighted(segs, uses, n - 1, k) + Times(uses[n - 1], EndsAt(segs[n - 1], k))
  }

  lemma {:induction false} WeightedSum(segs: seq<Segment>, u: multiset<nat>, v: multiset<nat>, n: nat, k: Key)
    requires n <= |segs|
    ensures Weighted(segs, u + v, n, k) == Weighted(segs, u, n, k) + Weighted(segs, v, n, k)
  {
    if n > 0 {
      WeightedSum(segs, u, v, n - 1, k);
    }
  }

  lemma {:induction false} WeightedOne(segs: seq<Segment>, t: nat, n: nat, k: Key)
    requires n <= |segs|
    ensures Weighted(segs, multiset{t}, n, k) == if t < n then EndsAt(segs[t], k) else 0
  {
    if n > 0 {
      WeightedOne(segs, t, n - 1, k);
      if t == n - 1 {
        assert multiset{t}[n - 1] == 1;
      } else {
        assert multiset{t}[n - 1] == 0;
      }
    }
  }

  lemma {:induction false} WeightedAll(segs: seq<Segment>, u: multiset<nat>, n: nat, k: Key)
    requires n <= |segs| && forall i :: 0 <= i < n ==> u[i] == 1
    ensures Weighted(segs, u, n, k) == Degree(segs[..n], k)
  {
    if n > 0 {
      WeightedAll(segs, u, n - 1, k);
      assert segs[..n][..n - 1] == segs[..n - 1];
    }
  }

  lemma ExtendUses(segs: seq<Segment>, u: multiset<nat>, t: nat, k: Key)
    requires t < |segs|
    ensures Weighted(segs, u + multiset{t}, |segs|, k) == Weighted(segs, u, |segs|, k) + EndsAt(segs[t], k)
  {
    WeightedSum(segs, u, multiset{t}, |segs|, k);
    WeightedOne(segs, t, |segs|, k);
  }

  lemma FollowedEnds(s: Segment, p: Point, q: Point, k: Key)
    requires Follows(s, p, q)
    ensures EndsAt(s, k) == Mark(PointKey(p) == k) + Mark(PointKey(q) == k)
  {}

  /** Inside a walk the ends at k pair up; only the two ends of the polyline are left over. */
  lemma {:induction false} WalkParity(segs: seq<Segment>, line: Polyline, trail: seq<nat>, k: Key) returns (half: nat)
    requires Traces(segs, line, trail)
    ensures Weighted(segs, multiset(trail), |segs|, k) + Mark(FirstKey(line) == k) + Mark(LastKey(line) == k)
         == 2 * half
  {
    var n := |trail|;
    if n == 0 {
      WeightedNone(segs, |segs|, k);
      half := Mark(FirstKey(line) == k);
    } else {
      var t, trail', line' := trail[n - 1], trail[..n - 1], line[..n];
      half := WalkParity(segs, line', trail', k);
      assert trail == trail' + [t];
      ExtendUses(segs, multiset(trail'), t, k);
      FollowedEnds(segs[t], line[n - 1], line[n], k);
      half := half + Mark(PointKey(line[n]) == k);
    }
  }

  lemma {:induction false} WeightedNone(segs: seq<Segment>, n: nat, k: Key)
    requires n <= |segs|
    ensures Weighted(segs, multiset{}, n, k) == 0
  {
    if n > 0 {
      WeightedNone(segs, n - 1, k);
    }
  }

  lemma {:induction false} TrailsParity(segs: seq<Segment>, lines: seq<Polyline>, trails: seq<seq<nat>>, k: Key)
      returns (half: nat)
    requires |lines| == |trails|
    requires forall i :: 0 <= i < |lines| ==> lines[i] != [] && Traces(segs, lines[i], trails[i])
    ensures Weighted(segs, Uses(trails), |segs|, k) + OpenEnds(lines, k) == 2 * half
  {
    var n := |lines| - 1;
    if lines == [] {
      WeightedNone(segs, |segs|, k);
      half := 0;
    } else {
      var before := TrailsParity(segs, lines[..n], trails[..n], k);
      WeightedSum(segs, Uses(trails[..n]), multiset(trails[n]), |segs|, k);
      var last := WalkParity(segs, lines[n], trails[n], k);
      half := before + last - Mark(FirstKey(lines[n]) == LastKey(lines[n]) == k);
    }
  }

  lemma {:induction false} SeparatedEnds(lines: seq<Polyline>, k: Key)
    requires Separated(lines)
    ensures OpenEnds(lines, k) <= 1
  {
    var n := |lines| - 1;
    if lines != [] {
      var last := lines[n];
      SeparatedEnds(lines[..n], k);
      if OpenEndAt(last, k) {
        assert last[0] in last && last[|last| - 1] in last;
        assert Visits(last, k);
        NoOpenEnd(lines[..n], k);
      }
    }
  }

  lemma {:induction false} NoOpenEnd(lines: seq<Polyline>, k: Key)
    requires forall i :: 0 <= i < |lines| ==> lines[i] != [] && !OpenEndAt(lines[i], k)
    ensures OpenEnds(lines, k) == 0
  {
    if lines != [] {
      NoOpenEnd(lines[..|lines| - 1], k);
    }
  }

  lemma ParityPins(w: nat, ends: nat, half: nat)
    requires w + ends == 2 * half && ends <= 1
    ensures ends == w % 2
  {}

  /** The number of open polylines ending at a key is the parity of the key's degree: every key of odd
      degree ends exactly one open polyline, and no open polyline ends anywhere else. */
  lemma OpenEndsAreOddKeys(segs: seq<Segment>, lines: seq<Polyline>, trails: seq<seq<nat>>, k: Key)
    requires Decomposes(segs, lines, trails) && Separated(lines)
    ensures OpenEnds(lines, k) == Degree(segs, k) % 2
  {
    var w := Weighted(segs, Uses(trails), |segs|, k);
    assert w == Degree(segs, k) by {
      WeightedAll(segs, Uses(trails), |segs|, k);
      assert segs[..|segs|] == segs;
    }
    var half := TrailsParity(segs, lines, trails, k);
    SeparatedEnds(lines, k);
    ParityPins(w, OpenEnds(lines, k), half);
  }
}
