/** Batch rendering (internal/maptoolcli/maptool.go, orchestrate and worldClaim; render.go, publishPartial) as a
    state machine: one goroutine per input, a counting semaphore, a publish lock, and the directories of the output
    folder, working directories included. The goroutines take steps in any order. */
module RenderOrchestrator {
  import opened Common

  // ----- Directory names

  predicate SafeChar(c: char) {
    'a' <= c <= 'z' || '0' <= c <= '9' || c == '_' || c == '-'
  }

  /** isSafeWorldName: a nonempty name of lower-case letters, digits, underscores and hyphens. */
  predicate SafeWorldName(name: string) {
    name != "" && forall c <- name :: SafeChar(c)
  }

  /** Exactly the nonempty names of the ASCII codes of these are safe; so a safe name leads to no other folder. */
  lemma SafeMeansPlain(name: string)
    ensures SafeWorldName(name) <==> name != "" && forall c <- name ::
              97 <= c as int <= 122 || 48 <= c as int <= 57 || c as int in {45, 95}
    ensures SafeWorldName(name) ==> '/' !in name && '\\' !in name && '.' !in name && ':' !in name
  {}

  predicate AllDigits(s: string) {
    forall c <- s :: '0' <= c <= '9'
  }

  function Decimal(n: nat): (s: string)
    ensures s != "" && AllDigits(s)
  {
    var digit := [('0' as int + n % 10) as char];
    if n < 10 then digit else Decimal(n / 10) + digit
  }

  function WorkingName(guess: string, i: nat): string {
    "." + guess + ".partial" + "-" + Decimal(i)
  }

  lemma {:induction false} DecimalInjective(m: nat, n: nat)
    requires Decimal(m) == Decimal(n)
    ensures m == n
  {
    var dm, dn := Decimal(m), Decimal(n);
    assert dm[|dm| - 1] == ('0' as int + m % 10) as char && dn[|dn| - 1] == ('0' as int + n % 10) as char;
    if m >= 10 && n >= 10 {
      assert Decimal(m / 10) == dm[..|dm| - 1] && Decimal(n / 10) == dn[..|dn| - 1];
      DecimalInjective(m / 10, n / 10);
    }
  }

  /** Digits after a dash never reach back over another dash. */
  lemma AfterLastDash(x: string, d: string, y: string, e: string)
    requires AllDigits(e) && x + "-" + d == y + "-" + e
    ensures |d| >= |e|
  {
    var s := x + "-" + d;
    assert s[|x|] == '-';
    forall p | |y| < p < |s|
      ensures s[p] != '-'
    {
      assert s[p] == e[p - |y| - 1] && e[p - |y| - 1] in e;
    }
  }

  /** Working directories of different inputs never coincide, even for equal guesses, and no final directory
      of a safe world name is a working directory. */
  lemma DirectoriesDistinct(g: string, i: nat, h: string, j: nat, world: string)
    ensures WorkingName(g, i) == WorkingName(h, j) ==> i == j && g == h
    ensures SafeWorldName(world) ==> world != WorkingName(g, i)
  {
    var a, b := WorkingName(g, i), WorkingName(h, j);
    var di, dj := Decimal(i), Decimal(j);
    assert a[0] == '.' && a[0] in a;
    if a == b {
      AfterLastDash("." + g + ".partial", di, "." + h + ".partial", dj);
      AfterLastDash("." + h + ".partial", dj, "." + g + ".partial", di);
      assert a[|a| - |di|..] == di && b[|b| - |dj|..] == dj;
      DecimalInjective(i, j);
      assert a[1..1 + |g|] == g && b[1..1 + |h|] == h;
    }
  }

  // ----- The goroutines

  /** What the run is asked to do: a guessed world name per input, the number of jobs, and whether to overwrite. */
  datatype Options = Options(guesses: seq<string>, jobs: nat, force: bool)

  datatype Outcome = Published(world: string) | Skipped(world: string) | Failed(world: string)

  /** Where a goroutine is. From Checking to Named it holds the publish lock; from Running to Sent, a semaphore slot. */
  datatype Place =
    | NotSpawned
    | Running
    | Cleaning
    | Rendering
    | Rendered(world: string)
    | Checking(world: string)
    | Replacing(world: string)
    | Renaming(world: string)
    | Named(world: string)
    | Discarding(outcome: Outcome)
    | Reporting(outcome: Outcome)
    | Sent
    | Finished

  /** Whose output a directory holds. */
  datatype Owner = Preexisting | Input(i: nat)

  datatype Shared = Shared(
    lock: Option<nat>,
    seen: set<string>,
    dirs: map<string, Owner>,       // the directories that exist in the output folder, by name
    results: seq<(nat, Outcome)>,   // the results channel
    published: seq<(nat, string)>   // history: successful renames
  )

  datatype State = State(places: seq<Place>, next: nat, shared: Shared)

  datatype Step =
    | Spawn                     // acquire a slot and start the next goroutine
    | Go(i: nat, move: Move)    // a goroutine moves on

  datatype Move =
    | CheckGuess(statFails: bool)  // no guess, or does the guessed world's directory exist already?
    | Clean(fails: bool)           // remove a working directory left behind
    | Render(world: string)        // rendering succeeds and names the world
    | RenderFails(leaves: bool)    // and may leave a working directory
    | Lock
    | Check(statFails: bool)       // seen? exists? forced?
    | Replace(fails: bool)         // look for an existing final directory and remove it
    | Rename(fails: bool)          // move the working directory into place
    | MarkSeen
    | Discard(fails: bool)         // remove the working directory
    | Report
    | Release

  function WorkingDir(o: Options, i: nat): string
    requires i < |o.guesses|
  {
    WorkingName(o.guesses[i], i)
  }

  function Initial(o: Options, existing: set<string>): State {
    State(seq(|o.guesses|, _ => NotSpawned), 0, Shared(None, {}, map w | w in existing :: Preexisting, [], []))
  }

  predicate HoldsSlot(p: Place) {
    !p.NotSpawned? && !p.Finished?
  }

  predicate HoldsLock(p: Place) {
    p.Checking? || p.Replacing? || p.Renaming? || p.Named?
  }

  function Slots(places: seq<Place>): nat {
    if places == [] then 0
    else Slots(places[..|places| - 1]) + if HoldsSlot(places[|places| - 1]) then 1 else 0
  }

  predicate CanSpawn(o: Options, s: State) {
    s.next < |s.places| && Slots(s.places) < o.jobs
  }

  /** Leaving the critical section without having published. */
  function Leave(sh: Shared, outcome: Outcome): (Place, Shared) {
    (Discarding(outcome), sh.(lock := None))
  }

  /** What a move of goroutine i does; a move that is not possible now does nothing. */
  function Advance(o: Options, i: nat, p: Place, sh: Shared, move: Move): (Place, Shared)
    requires i < |o.guesses|
  {
    var guess, working := o.guesses[i], WorkingDir(o, i);
    match move
    case CheckGuess(statFails) =>
      if !p.Running? then (p, sh)
      else if guess == "" then (Reporting(Failed(guess)), sh)
      else if guess in sh.dirs && !statFails && !o.force then (Reporting(Skipped(guess)), sh)
      else (Cleaning, sh)
    case Clean(fails) =>
      if !p.Cleaning? then (p, sh)
      else if fails then (Reporting(Failed(guess)), sh)
      else (Rendering, sh.(dirs := sh.dirs - {working}))
    case Render(world) =>
      if !p.Rendering? then (p, sh)
      else (Rendered(if world == "" then guess else world), sh.(dirs := sh.dirs[working := Input(i)]))
    case RenderFails(leaves) =>
      if !p.Rendering? then (p, sh)
      else (Discarding(Failed(guess)), if leaves then sh.(dirs := sh.dirs[working := Input(i)]) else sh)
    case Lock =>
      if p.Rendered? && sh.lock.None? then (Checking(p.world), sh.(lock := Some(i))) else (p, sh)
    case Check(statFails) =>
      if !p.Checking? then (p, sh)
      else if p.world in sh.seen || statFails then Leave(sh, Failed(p.world))
      else if p.world in sh.dirs && !o.force then Leave(sh, Skipped(p.world))
      else (Replacing(p.world), sh)
    case Replace(fails) =>
      if !p.Replacing? then (p, sh)
      else if fails then Leave(sh, Failed(p.world))
      else (Renaming(p.world), sh.(dirs := sh.dirs - {p.world}))
    case Rename(fails) =>
      if !p.Renaming? then (p, sh)
      else if fails || working !in sh.dirs then Leave(sh, Failed(p.world))
      else (Named(p.world), sh.(dirs := (sh.dirs - {working})[p.world := sh.dirs[working]],
                                published := sh.published + [(i, p.world)]))
    case MarkSeen =>
      if p.Named? then (Reporting(Published(p.world)), sh.(lock := None, seen := sh.seen + {p.world})) else (p, sh)
    case Discard(fails) =>
      if !p.Discarding? then (p, sh)
      else (Reporting(p.outcome), if fails then sh else sh.(dirs := sh.dirs - {working}))
    case Report =>
      if p.Reporting? then (Sent, sh.(results := sh.results + [(i, p.outcome)])) else (p, sh)
    case Release =>
      if p.Sent? then (Finished, sh) else (p, sh)
  }

  function Next(o: Options, s: State, step: Step): State
    requires |o.guesses| == |s.places|
  {
    match step
    case Spawn =>
      if CanSpawn(o, s) then State(s.places[s.next := Running], s.next + 1, s.shared) else s
    case Go(i, move) =>
      if i >= |s.places| then s
      else
        var (p, sh) := Advance(o, i, s.places[i], s.shared, move);
        State(s.places[i := p], s.next, sh)
  }

  function Run(o: Options, existing: set<string>, steps: seq<Step>): (s: State)
    ensures |s.places| == |o.guesses|
  {
    if steps == [] then Initial(o, existing)
    else Next(o, Run(o, existing, steps[..|steps| - 1]), steps[|steps| - 1])
  }

  // ----- What every reachable state satisfies

  ghost predicate Spawned(s: State) {
    && s.next <= |s.places|
    && forall i :: 0 <= i < |s.places| ==> (s.places[i].NotSpawned? <==> i >= s.next)
  }

  /** Only the holder of the lock is in the critical section. */
  ghost predicate LockExclusive(s: State) {
    && (forall i :: 0 <= i < |s.places| ==> (HoldsLock(s.places[i]) <==> s.shared.lock == Some(i)))
    && (s.shared.lock.Some? ==> s.shared.lock.value < |s.places|)
  }

  ghost predicate WithinJobs(o: Options, s: State) {
    Slots(s.places) <= o.jobs
  }

  ghost function ResultsOf(results: seq<(nat, Outcome)>, i: nat): seq<Outcome> {
    if results == [] then []
    else
      var r := results[|results| - 1];
      ResultsOf(results[..|results| - 1], i) + if r.0 == i then [r.1] else []
  }

  predicate HasSent(p: Place) {
    p.Sent? || p.Finished?
  }

  /** An input has sent one result if its goroutine has reported, and none before. */
  ghost predicate OneResult(s: State, i: nat)
    requires i < |s.places|
  {
    |ResultsOf(s.shared.results, i)| == if HasSent(s.places[i]) then 1 else 0
  }

  ghost predicate OneResultEach(s: State) {
    forall i :: 0 <= i < |s.places| ==> OneResult(s, i)
  }

  /** A directory that was there before the run and is not the working directory of an input. */
  ghost predicate IsKept(o: Options, existing: set<string>, name: string) {
    name in existing && forall i | 0 <= i < |o.guesses| :: name != WorkingDir(o, i)
  }

  /** While the lock holder is past its check, its world is unseen, and without force not one to be kept. What is
      reported as published was published. */
  ghost predicate PlaceOk(o: Options, existing: set<string>, sh: Shared, i: nat, p: Place) {
    match p
    case Replacing(w) => w !in sh.seen && (!o.force ==> !IsKept(o, existing, w))
    case Renaming(w) => w !in sh.seen && (!o.force ==> !IsKept(o, existing, w))
    case Named(w) => w !in sh.seen && (i, w) in sh.published
    case Discarding(outcome) => !outcome.Published?
    case Reporting(outcome) => outcome.Published? ==> (i, outcome.world) in sh.published
    case _ => true
  }

  ghost predicate PlacesOk(o: Options, existing: set<string>, s: State) {
    forall i :: 0 <= i < |s.places| ==> PlaceOk(o, existing, s.shared, i, s.places[i])
  }

  /** A published world is marked as seen, or its goroutine is about to do so. */
  ghost predicate Recorded(s: State, pub: (nat, string)) {
    pub.1 in s.shared.seen || (pub.0 < |s.places| && s.places[pub.0] == Named(pub.1))
  }

  ghost predicate PublishedOnce(o: Options, existing: set<string>, s: State) {
    && (forall pub <- s.shared.published :: Recorded(s, pub))
    && (forall pub <- s.shared.published :: !o.force ==> !IsKept(o, existing, pub.1))
    && (forall a, b :: 0 <= a < b < |s.shared.published| ==> s.shared.published[a].1 != s.shared.published[b].1)
  }

  /** Without force, a directory that existed before the run is still the old one. */
  ghost predicate ExistingKept(o: Options, existing: set<string>, s: State) {
    !o.force ==>
      forall w <- existing :: IsKept(o, existing, w) ==> w in s.shared.dirs && s.shared.dirs[w] == Preexisting
  }

  /** A result that says published is about a published world. */
  ghost predicate ResultsTruthful(s: State) {
    forall r <- s.shared.results :: r.1.Published? ==> (r.0, r.1.world) in s.shared.published
  }

  ghost predicate Invariant(o: Options, existing: set<string>, s: State) {
    && |s.places| == |o.guesses|
    && Spawned(s) && LockExclusive(s) && WithinJobs(o, s) && OneResultEach(s)
    && PlacesOk(o, existing, s) && PublishedOnce(o, existing, s) && ExistingKept(o, existing, s) && ResultsTruthful(s)
  }

  // ----- Each step keeps it

  lemma {:induction false} SlotsMove(places: seq<Place>, i: nat, p: Place)
    requires i < |places|
    ensures Slots(places[i := p]) == Slots(places)
      - (if HoldsSlot(places[i]) then 1 else 0) + if HoldsSlot(p) then 1 else 0
  {
    var n := |places| - 1;
    if i < n {
      SlotsMove(places[..n], i, p);
      assert places[i := p][..n] == places[..n][i := p];
    } else {
      assert places[i := p][..n] == places[..n];
    }
  }

  /** A move never leaves a slot that it does not give back, and spawns nothing. */
  lemma MoveSlots(o: Options, i: nat, p: Place, sh: Shared, move: Move)
    requires i < |o.guesses|
    ensures var p' := Advance(o, i, p, sh, move).0;
      (HoldsSlot(p') ==> HoldsSlot(p)) && (p'.NotSpawned? <==> p.NotSpawned?)
  {}

  lemma SlotsStep(o: Options, s: State, step: Step)
    requires |s.places| == |o.guesses| && Spawned(s) && WithinJobs(o, s)
    ensures Spawned(Next(o, s, step)) && WithinJobs(o, Next(o, s, step))
  {
    match step {
      case Spawn =>
        if CanSpawn(o, s) {
          SlotsMove(s.places, s.next, Running);
        }
      case Go(i, move) =>
        if i < |s.places| {
          MoveSlots(o, i, s.places[i], s.shared, move);
          SlotsMove(s.places, i, Advance(o, i, s.places[i], s.shared, move).0);
        }
    }
  }

  /** How a move changes the lock. */
  lemma MoveLock(o: Options, i: nat, p: Place, sh: Shared, move: Move)
    requires i < |o.guesses| && (HoldsLock(p) <==> sh.lock == Some(i))
    ensures var (p', sh') := Advance(o, i, p, sh, move);
      && (HoldsLock(p') <==> sh'.lock == Some(i))
      && (sh'.lock == sh.lock || (sh.lock.None? && sh'.lock == Some(i)) || (sh.lock == Some(i) && sh'.lock.None?))
  {}

  lemma LockStep(o: Options, s: State, step: Step)
    requires |s.places| == |o.guesses| && LockExclusive(s) && Spawned(s)
    ensures LockExclusive(Next(o, s, step))
  {
    if step.Go? && step.i < |s.places| {
      MoveLock(o, step.i, s.places[step.i], s.shared, step.move);
    }
  }

  /** Only Report adds to the results, and only it sends. */
  lemma MoveResults(o: Options, i: nat, p: Place, sh: Shared, move: Move)
    requires i < |o.guesses|
    ensures var (p', sh') := Advance(o, i, p, sh, move);
      if p.Reporting? && move.Report? then sh'.results == sh.results + [(i, p.outcome)] && HasSent(p')
      else sh'.results == sh.results && HasSent(p') == HasSent(p)
  {}

  lemma ResultsGrow(results: seq<(nat, Outcome)>, r: (nat, Outcome), j: nat)
    ensures |ResultsOf(results + [r], j)| == |ResultsOf(results, j)| + if r.0 == j then 1 else 0
  {
    assert (results + [r])[..|results|] == results;
  }

  lemma ResultOfMove(o: Options, s: State, i: nat, move: Move, j: nat)
    requires |s.places| == |o.guesses| && i < |s.places| && j < |s.places| && OneResult(s, j)
    ensures OneResult(Next(o, s, Go(i, move)), j)
  {
    hide Advance, ResultsOf;
    var p := s.places[i];
    MoveResults(o, i, p, s.shared, move);
    if p.Reporting? && move.Report? {
      ResultsGrow(s.shared.results, (i, p.outcome), j);
    }
  }

  lemma ResultsStep(o: Options, s: State, step: Step)
    requires |s.places| == |o.guesses| && Spawned(s) && OneResultEach(s)
    ensures OneResultEach(Next(o, s, step))
  {
    forall j | 0 <= j < |s.places|
      ensures OneResult(Next(o, s, step), j)
    {
      assert OneResult(s, j);
      if step.Go? && step.i < |s.places| {
        ResultOfMove(o, s, step.i, step.move, j);
      }
    }
  }

  /** Seen worlds and publications only grow, and only in the hands of the lock holder. */
  lemma MoveClaims(o: Options, i: nat, p: Place, sh: Shared, move: Move)
    requires i < |o.guesses|
    ensures var (p', sh') := Advance(o, i, p, sh, move);
      && sh'.seen == (if p.Named? && move.MarkSeen? then sh.seen + {p.world} else sh.seen)
      && sh'.published == (if p.Renaming? && p'.Named? then sh.published + [(i, p.world)] else sh.published)
      && (p'.Named? && !p.Named? ==> p == Renaming(p'.world))
      && (p.Named? && p' != p ==> p' == Reporting(Published(p.world)) && move.MarkSeen?)
  {}

  lemma MovePlace(o: Options, existing: set<string>, i: nat, p: Place, sh: Shared, move: Move)
    requires i < |o.guesses| && PlaceOk(o, existing, sh, i, p)
    requires !o.force ==> forall w <- existing :: IsKept(o, existing, w) ==> w in sh.dirs
    ensures var (p', sh') := Advance(o, i, p, sh, move); PlaceOk(o, existing, sh', i, p')
  {}

  lemma OtherPlace(o: Options, existing: set<string>, s: State, i: nat, move: Move, j: nat)
    requires |s.places| == |o.guesses| && i < |s.places| && j < |s.places| && i != j
    requires LockExclusive(s) && PlacesOk(o, existing, s)
    ensures PlaceOk(o, existing, Advance(o, i, s.places[i], s.shared, move).1, j, s.places[j])
  {
    assert PlaceOk(o, existing, s.shared, j, s.places[j]);
    MoveClaims(o, i, s.places[i], s.shared, move);
  }

  lemma PlacesStep(o: Options, existing: set<string>, s: State, step: Step)
    requires |s.places| == |o.guesses| && LockExclusive(s) && PlacesOk(o, existing, s) && ExistingKept(o, existing, s)
    ensures PlacesOk(o, existing, Next(o, s, step))
  {
    if step.Go? && step.i < |s.places| {
      MovePlace(o, existing, step.i, s.places[step.i], s.shared, step.move);
      forall j | 0 <= j < |s.places| && j != step.i {
        OtherPlace(o, existing, s, step.i, step.move, j);
      }
    }
  }

  lemma PublishStep(o: Options, existing: set<string>, s: State, step: Step)
    requires |s.places| == |o.guesses| && Spawned(s) && LockExclusive(s)
    requires PlacesOk(o, existing, s) && PublishedOnce(o, existing, s)
    ensures PublishedOnce(o, existing, Next(o, s, step))
  {
    var s' := Next(o, s, step);
    if step.Go? && step.i < |s.places| {
      var p := s.places[step.i];
      MoveClaims(o, step.i, p, s.shared, step.move);
      assert PlaceOk(o, existing, s.shared, step.i, p);
      forall pub <- s.shared.published
        ensures Recorded(s', pub) && (p.Renaming? ==> pub.1 != p.world)
      {
        assert Recorded(s, pub);
      }
      forall a | 0 <= a < |s.shared.published|
        ensures p.Renaming? ==> s.shared.published[a].1 != p.world
      {
        assert s.shared.published[a] in s.shared.published;
      }
    } else {
      forall pub <- s.shared.published
        ensures Recorded(s', pub)
      {
        assert Recorded(s, pub);
      }
    }
  }

  /** A move changes no directory other than the goroutine's working directory and the world it is publishing. */
  lemma MoveDirs(o: Options, i: nat, p: Place, sh: Shared, move: Move, name: string)
    requires i < |o.guesses| && name != WorkingDir(o, i)
    requires p.Replacing? || p.Renaming? ==> name != p.world
    ensures var sh' := Advance(o, i, p, sh, move).1;
      && (name in sh'.dirs <==> name in sh.dirs)
      && (name in sh.dirs ==> sh'.dirs[name] == sh.dirs[name])
  {}

  lemma KeptStep(o: Options, existing: set<string>, s: State, step: Step)
    requires |s.places| == |o.guesses| && PlacesOk(o, existing, s) && ExistingKept(o, existing, s)
    ensures ExistingKept(o, existing, Next(o, s, step))
  {
    if !o.force && step.Go? && step.i < |s.places| {
      assert PlaceOk(o, existing, s.shared, step.i, s.places[step.i]);
      forall w <- existing | IsKept(o, existing, w) {
        MoveDirs(o, step.i, s.places[step.i], s.shared, step.move, w);
      }
    }
  }

  lemma TruthStep(o: Options, existing: set<string>, s: State, step: Step)
    requires |s.places| == |o.guesses| && PlacesOk(o, existing, s) && ResultsTruthful(s)
    ensures ResultsTruthful(Next(o, s, step))
  {
    if step.Go? && step.i < |s.places| {
      assert PlaceOk(o, existing, s.shared, step.i, s.places[step.i]);
      MoveClaims(o, step.i, s.places[step.i], s.shared, step.move);
      MoveResults(o, step.i, s.places[step.i], s.shared, step.move);
    }
  }

  lemma InvariantStep(o: Options, existing: set<string>, s: State, step: Step)
    requires Invariant(o, existing, s)
    ensures Invariant(o, existing, Next(o, s, step))
  {
    SlotsStep(o, s, step);
    LockStep(o, s, step);
    ResultsStep(o, s, step);
    PlacesStep(o, existing, s, step);
    PublishStep(o, existing, s, step);
    KeptStep(o, existing, s, step);
    TruthStep(o, existing, s, step);
  }

  // ----- Directories do not interfere, given safe world names

  /** Every world that is rendered has a safe name, as the renderer sees to by refusing all others. */
  ghost predicate SafeRun(steps: seq<Step>) {
    forall step <- steps :: SafeStep(step)
  }

  predicate SafeStep(step: Step) {
    step.Go? && step.move.Render? ==> SafeWorldName(step.move.world)
  }

  predicate SafePlace(p: Place) {
    p.Rendered? || p.Checking? || p.Replacing? || p.Renaming? || p.Named? ==> SafeWorldName(p.world)
  }

  /** From a successful rendering until it is moved, the goroutine's output is in its working directory. */
  predicate HasOutput(p: Place) {
    p.Rendered? || p.Checking? || p.Replacing? || p.Renaming?
  }

  ghost predicate Undisturbed(o: Options, s: State)
    requires |s.places| == |o.guesses|
  {
    && (forall i :: 0 <= i < |s.places| ==> SafePlace(s.places[i]))
    && (forall i :: 0 <= i < |s.places| && HasOutput(s.places[i]) ==>
          WorkingDir(o, i) in s.shared.dirs && s.shared.dirs[WorkingDir(o, i)] == Input(i))
    && (forall pub <- s.shared.published ::
          SafeWorldName(pub.1) && pub.1 in s.shared.dirs && s.shared.dirs[pub.1] == Input(pub.0))
  }

  lemma MoveSafe(o: Options, i: nat, p: Place, sh: Shared, move: Move)
    requires i < |o.guesses| && SafePlace(p) && SafeStep(Go(i, move))
    requires HasOutput(p) ==> WorkingDir(o, i) in sh.dirs && sh.dirs[WorkingDir(o, i)] == Input(i)
    ensures var (p', sh') := Advance(o, i, p, sh, move);
      && SafePlace(p')
      && (HasOutput(p') ==> WorkingDir(o, i) in sh'.dirs && sh'.dirs[WorkingDir(o, i)] == Input(i))
      && (p.Renaming? && p'.Named? ==> p.world in sh'.dirs && sh'.dirs[p.world] == Input(i))
  {
    if p.Replacing? {
      DirectoriesDistinct(o.guesses[i], i, o.guesses[i], i, p.world);
    }
  }

  lemma UndisturbedStep(o: Options, existing: set<string>, s: State, step: Step)
    requires Invariant(o, existing, s) && Undisturbed(o, s) && SafeStep(step)
    ensures Undisturbed(o, Next(o, s, step))
  {
    if step.Go? && step.i < |s.places| {
      var i, p := step.i, s.places[step.i];
      MoveSafe(o, i, p, s.shared, step.move);
      MoveClaims(o, i, p, s.shared, step.move);
      assert PlaceOk(o, existing, s.shared, i, p);
      forall j | 0 <= j < |s.places| && j != i && HasOutput(s.places[j])
        ensures var dirs := Next(o, s, step).shared.dirs;
          WorkingDir(o, j) in dirs && dirs[WorkingDir(o, j)] == Input(j)
      {
        OtherWorkingDir(o, s, i, j, step.move);
      }
      forall pub <- s.shared.published
        ensures pub.1 in Next(o, s, step).shared.dirs && Next(o, s, step).shared.dirs[pub.1] == Input(pub.0)
      {
        assert Recorded(s, pub);
        DirectoriesDistinct(o.guesses[i], i, o.guesses[i], i, pub.1);
        MoveDirs(o, i, p, s.shared, step.move, pub.1);
      }
    }
  }

  lemma OtherWorkingDir(o: Options, s: State, i: nat, j: nat, move: Move)
    requires |s.places| == |o.guesses| && i < |s.places| && j < |s.places| && i != j && SafePlace(s.places[i])
    ensures var sh' := Advance(o, i, s.places[i], s.shared, move).1;
      && (WorkingDir(o, j) in sh'.dirs <==> WorkingDir(o, j) in s.shared.dirs)
      && (WorkingDir(o, j) in s.shared.dirs ==> sh'.dirs[WorkingDir(o, j)] == s.shared.dirs[WorkingDir(o, j)])
  {
    var p := s.places[i];
    var world := if p.Replacing? || p.Renaming? then p.world else "";
    DirectoriesDistinct(o.guesses[i], i, o.guesses[j], j, world);
    DirectoriesDistinct(o.guesses[j], j, o.guesses[i], i, world);
    MoveDirs(o, i, p, s.shared, move, WorkingDir(o, j));
  }

  // ----- Every run

  lemma {:induction false} RunKeepsInvariant(o: Options, existing: set<string>, steps: seq<Step>)
    ensures Invariant(o, existing, Run(o, existing, steps))
    ensures SafeRun(steps) ==> Undisturbed(o, Run(o, existing, steps))
  {
    if steps == [] {
      NoSlotsInitially(|o.guesses|);
    } else {
      var before, last := Run(o, existing, steps[..|steps| - 1]), steps[|steps| - 1];
      RunKeepsInvariant(o, existing, steps[..|steps| - 1]);
      InvariantStep(o, existing, before, last);
      if SafeRun(steps) {
        assert last in steps && SafeRun(steps[..|steps| - 1]);
        UndisturbedStep(o, existing, before, last);
      }
    }
  }

  lemma {:induction false} NoSlotsInitially(n: nat)
    ensures Slots(seq(n, _ => NotSpawned)) == 0
  {
    if n > 0 {
      NoSlotsInitially(n - 1);
      assert seq(n, _ => NotSpawned)[..n - 1] == seq(n - 1, _ => NotSpawned);
    }
  }

  /** At every moment at most the requested number of goroutines hold a slot, and at most one the lock. */
  lemma BoundedConcurrency(o: Options, existing: set<string>, steps: seq<Step>, i: nat, j: nat)
    ensures Slots(Run(o, existing, steps).places) <= o.jobs
    ensures var s := Run(o, existing, steps);
      i < |s.places| && j < |s.places| && HoldsLock(s.places[i]) && HoldsLock(s.places[j]) ==> i == j
  {
    RunKeepsInvariant(o, existing, steps);
  }

  /** A world is published at most once. With safe world names its final directory holds exactly the output that was
      rendered for that input, whatever the other goroutines clean, move and remove. */
  lemma EachWorldPublishedOnce(o: Options, existing: set<string>, steps: seq<Step>, a: nat, b: nat)
    requires var s := Run(o, existing, steps); a < |s.shared.published| && b < |s.shared.published|
    ensures var published := Run(o, existing, steps).shared.published;
      published[a].1 == published[b].1 ==> a == b
    ensures SafeRun(steps) ==>
      var sh := Run(o, existing, steps).shared;
      sh.published[a].1 in sh.dirs && sh.dirs[sh.published[a].1] == Input(sh.published[a].0)
  {
    RunKeepsInvariant(o, existing, steps);
    var published := Run(o, existing, steps).shared.published;
    assert published[a] in published;
  }

  /** Without force, no directory that existed beforehand is ever replaced or published over, other than a working
      directory that an earlier run left behind. */
  lemma ExistingNeverReplaced(o: Options, existing: set<string>, steps: seq<Step>, w: string)
    requires !o.force && IsKept(o, existing, w)
    ensures var sh := Run(o, existing, steps).shared;
      && w in sh.dirs && sh.dirs[w] == Preexisting
      && forall pub <- sh.published :: pub.1 != w
  {
    RunKeepsInvariant(o, existing, steps);
  }

  predicate AllFinished(s: State) {
    forall j :: 0 <= j < |s.places| ==> s.places[j].Finished?
  }

  /** When every goroutine has finished, each input has exactly one result, and a result that says published
      is backed by a publication. */
  lemma EachInputOneResult(o: Options, existing: set<string>, steps: seq<Step>, i: nat)
    requires i < |o.guesses| && AllFinished(Run(o, existing, steps))
    ensures var sh := Run(o, existing, steps).shared;
      && |ResultsOf(sh.results, i)| == 1
      && (ResultsOf(sh.results, i)[0].Published? ==> (i, ResultsOf(sh.results, i)[0].world) in sh.published)
  {
    RunKeepsInvariant(o, existing, steps);
    var s := Run(o, existing, steps);
    assert OneResult(s, i);
    ResultIsSent(s.shared.results, i);
    var r := (i, ResultsOf(s.shared.results, i)[0]);
    assert r.1 in ResultsOf(s.shared.results, i);
    assert r in s.shared.results;
  }

  lemma {:induction false} ResultIsSent(results: seq<(nat, Outcome)>, i: nat)
    ensures forall o <- ResultsOf(results, i) :: (i, o) in results
  {
    if results != [] {
      ResultIsSent(results[..|results| - 1], i);
    }
  }

  // ----- What decides each result

  /** What a goroutine is going to report, or has reported, once that is settled. */
  ghost function Decided(s: State, i: nat): Option<Outcome>
    requires i < |s.places|
  {
    match s.places[i]
    case Discarding(outcome) => Some(outcome)
    case Reporting(outcome) => Some(outcome)
    case _ => if ResultsOf(s.shared.results, i) == [] then None else Some(ResultsOf(s.shared.results, i)[0])
  }

  /** In this step goroutine i fails on world w: it has no guess, it cannot clean, render, look, remove or rename, or
      the world was published from another input. */
  ghost predicate Fails(o: Options, s: State, i: nat, step: Step, w: string)
    requires i < |s.places| == |o.guesses|
  {
    step.Go? && step.i == i &&
    match step.move
    case CheckGuess(_) => s.places[i] == Running && o.guesses[i] == w == ""
    case Clean(fails) => s.places[i] == Cleaning && fails && o.guesses[i] == w
    case RenderFails(_) => s.places[i] == Rendering && o.guesses[i] == w
    case Check(statFails) => s.places[i] == Checking(w) && (w in s.shared.seen || statFails)
    case Replace(fails) => s.places[i] == Replacing(w) && fails
    case Rename(fails) => s.places[i] == Renaming(w) && (fails || WorkingDir(o, i) !in s.shared.dirs)
    case _ => false
  }

  /** In this step goroutine i finds that the directory of world w exists and must be kept. */
  ghost predicate Skips(o: Options, s: State, i: nat, step: Step, w: string)
    requires i < |s.places| == |o.guesses|
  {
    && step.Go? && step.i == i && !o.force && w in s.shared.dirs
    && match step.move
       case CheckGuess(statFails) => s.places[i] == Running && !statFails && o.guesses[i] == w != ""
       case Check(statFails) => s.places[i] == Checking(w) && !statFails && w !in s.shared.seen
       case _ => false
  }

  /** A move settles its goroutine's result exactly by failing, by skipping, or by marking a published world as seen. */
  lemma MoveDecides(o: Options, s: State, i: nat, move: Move, w: string)
    requires |s.places| == |o.guesses| && i < |s.places| && Decided(s, i).None? && !HasSent(s.places[i])
    ensures var s' := Next(o, s, Go(i, move));
      && (Decided(s', i) == Some(Failed(w)) <==> Fails(o, s, i, Go(i, move), w))
      && (Decided(s', i) == Some(Skipped(w)) <==> Skips(o, s, i, Go(i, move), w))
  {
    MoveResults(o, i, s.places[i], s.shared, move);
  }

  /** A settled result stays. */
  lemma DecidedStays(o: Options, s: State, i: nat, move: Move)
    requires |s.places| == |o.guesses| && i < |s.places| && OneResult(s, i) && Decided(s, i).Some?
    ensures Decided(Next(o, s, Go(i, move)), i) == Decided(s, i)
  {
    var p := s.places[i];
    MoveResults(o, i, p, s.shared, move);
    if p.Reporting? && move.Report? {
      var results := s.shared.results;
      assert (results + [(i, p.outcome)])[..|results|] == results;
      assert ResultsOf(results, i) == [];
    }
  }

  lemma OthersDecide(o: Options, s: State, i: nat, j: nat, move: Move)
    requires |s.places| == |o.guesses| && i < |s.places| && j < |s.places| && i != j
    ensures Decided(Next(o, s, Go(j, move)), i) == Decided(s, i)
  {
    var p, results := s.places[j], s.shared.results;
    MoveResults(o, j, p, s.shared, move);
    if p.Reporting? && move.Report? {
      assert (results + [(j, p.outcome)])[..|results|] == results;
      assert ResultsOf(results + [(j, p.outcome)], i) == ResultsOf(results, i);
    }
  }

  lemma DecidedStep(o: Options, existing: set<string>, s: State, step: Step, i: nat, w: string)
    requires Invariant(o, existing, s) && i < |s.places|
    ensures Decided(Next(o, s, step), i) == Some(Failed(w)) <==>
              Decided(s, i) == Some(Failed(w)) || Fails(o, s, i, step, w)
    ensures Decided(Next(o, s, step), i) == Some(Skipped(w)) <==>
              Decided(s, i) == Some(Skipped(w)) || Skips(o, s, i, step, w)
  {
    assert OneResult(s, i);
    if step.Go? && step.i < |s.places| {
      if step.i != i {
        OthersDecide(o, s, i, step.i, step.move);
      } else if Decided(s, i).Some? {
        DecidedStays(o, s, i, step.move);
      } else {
        MoveDecides(o, s, i, step.move, w);
      }
    }
  }

  ghost predicate FailsAt(o: Options, existing: set<string>, steps: seq<Step>, n: nat, i: nat, w: string)
    requires n < |steps| && i < |o.guesses|
  {
    Fails(o, Run(o, existing, steps[..n]), i, steps[n], w)
  }

  ghost predicate SkipsAt(o: Options, existing: set<string>, steps: seq<Step>, n: nat, i: nat, w: string)
    requires n < |steps| && i < |o.guesses|
  {
    Skips(o, Run(o, existing, steps[..n]), i, steps[n], w)
  }

  lemma NothingDecided(o: Options, existing: set<string>, i: nat, w: string)
    requires i < |o.guesses|
    ensures Decided(Run(o, existing, []), i) == None
  {}

  ghost predicate FailsIn(o: Options, existing: set<string>, steps: seq<Step>, i: nat, w: string)
    requires i < |o.guesses|
  {
    exists n :: 0 <= n < |steps| && FailsAt(o, existing, steps, n, i, w)
  }

  ghost predicate SkipsIn(o: Options, existing: set<string>, steps: seq<Step>, i: nat, w: string)
    requires i < |o.guesses|
  {
    exists n :: 0 <= n < |steps| && SkipsAt(o, existing, steps, n, i, w)
  }

  /** What happens in a run happens before its last step or in it. */
  lemma InBeforeOrLast(o: Options, existing: set<string>, steps: seq<Step>, i: nat, w: string)
    requires i < |o.guesses| && steps != []
    ensures var k := |steps| - 1; var s := Run(o, existing, steps[..k]);
      && (FailsIn(o, existing, steps, i, w) <==>
            FailsIn(o, existing, steps[..k], i, w) || Fails(o, s, i, steps[k], w))
      && (SkipsIn(o, existing, steps, i, w) <==>
            SkipsIn(o, existing, steps[..k], i, w) || Skips(o, s, i, steps[k], w))
  {
    hide Fails, Skips, Run;
    var k := |steps| - 1;
    forall n | 0 <= n < k
      ensures FailsAt(o, existing, steps[..k], n, i, w) <==> FailsAt(o, existing, steps, n, i, w)
      ensures SkipsAt(o, existing, steps[..k], n, i, w) <==> SkipsAt(o, existing, steps, n, i, w)
    {
      assert steps[..k][..n] == steps[..n];
    }
    assert FailsAt(o, existing, steps, k, i, w) <==> Fails(o, Run(o, existing, steps[..k]), i, steps[k], w);
    assert SkipsAt(o, existing, steps, k, i, w) <==> Skips(o, Run(o, existing, steps[..k]), i, steps[k], w);
  }

  lemma {:induction false} DecidedExactly(o: Options, existing: set<string>, steps: seq<Step>, i: nat, w: string)
    requires i < |o.guesses|
    ensures Decided(Run(o, existing, steps), i) == Some(Failed(w)) <==> FailsIn(o, existing, steps, i, w)
    ensures Decided(Run(o, existing, steps), i) == Some(Skipped(w)) <==> SkipsIn(o, existing, steps, i, w)
  {
    if steps == [] {
      NothingDecided(o, existing, i, w);
    } else {
      hide Decided, Fails, Skips, FailsIn, SkipsIn, Next, Invariant;
      var k := |steps| - 1;
      RunKeepsInvariant(o, existing, steps[..k]);
      DecidedExactly(o, existing, steps[..k], i, w);
      DecidedStep(o, existing, Run(o, existing, steps[..k]), steps[k], i, w);
      InBeforeOrLast(o, existing, steps, i, w);
    }
  }

  /** Once all goroutines have finished, an input's one result is exactly what its moves came to: it failed on a world
      if a move of its failed on that world, it was skipped if without force the world's directory was there when it
      looked, and it was published if neither happened. */
  lemma ResultExactly(o: Options, existing: set<string>, steps: seq<Step>, i: nat, w: string)
    requires i < |o.guesses| && AllFinished(Run(o, existing, steps))
    ensures var results := ResultsOf(Run(o, existing, steps).shared.results, i);
      && |results| == 1
      && (results[0] == Failed(w) <==> FailsIn(o, existing, steps, i, w))
      && (results[0] == Skipped(w) <==> SkipsIn(o, existing, steps, i, w))
  {
    EachInputOneResult(o, existing, steps, i);
    DecidedExactly(o, existing, steps, i, w);
    assert Run(o, existing, steps).places[i].Finished?;
  }

  /** A world that is marked as seen was published. */
  lemma {:induction false} SeenWasPublished(o: Options, existing: set<string>, steps: seq<Step>, w: string)
    requires w in Run(o, existing, steps).shared.seen
    ensures exists k :: (k, w) in Run(o, existing, steps).shared.published
  {
    var init, last := steps[..|steps| - 1], steps[|steps| - 1];
    var s := Run(o, existing, init);
    RunKeepsInvariant(o, existing, init);
    if last.Go? && last.i < |s.places| {
      assert PlaceOk(o, existing, s.shared, last.i, s.places[last.i]);
      MoveClaims(o, last.i, s.places[last.i], s.shared, last.move);
    }
    if w in s.shared.seen {
      SeenWasPublished(o, existing, init, w);
      var k :| (k, w) in s.shared.published;
      assert (k, w) in Run(o, existing, steps).shared.published;
    } else {
      assert (last.i, w) in s.shared.published;
      assert (last.i, w) in Run(o, existing, steps).shared.published;
    }
  }

  /** A move in which something goes wrong. */
  predicate GoesWrong(move: Move) {
    move.RenderFails? || move in {Clean(true), Check(true), Replace(true), Rename(true)}
  }

  /** At this step nothing stands in the way of goroutine i: when it looks for a directory there is none, or overwriting
      is forced; and nobody has published its world. */
  ghost predicate Unhindered(o: Options, s: State, i: nat, step: Step)
    requires i < |s.places| == |o.guesses|
  {
    step.Go? && step.i == i ==>
      && !GoesWrong(step.move)
      && (step.move.CheckGuess? ==> o.force || o.guesses[i] !in s.shared.dirs)
      && (step.move.Check? && s.places[i].Checking? ==>
            && (o.force || s.places[i].world !in s.shared.dirs)
            && forall pub <- s.shared.published :: pub.1 != s.places[i].world)
  }

  /** An input with a guess that nothing goes wrong for and nothing stands in the way of is published. */
  lemma UnhinderedIsPublished(o: Options, existing: set<string>, steps: seq<Step>, i: nat)
    requires i < |o.guesses| && o.guesses[i] != "" && AllFinished(Run(o, existing, steps)) && SafeRun(steps)
    requires forall n :: 0 <= n < |steps| ==> Unhindered(o, Run(o, existing, steps[..n]), i, steps[n])
    ensures var sh := Run(o, existing, steps).shared;
      var results := ResultsOf(sh.results, i);
      |results| == 1 && results[0].Published? && (i, results[0].world) in sh.published
  {
    EachInputOneResult(o, existing, steps, i);
    var w := ResultsOf(Run(o, existing, steps).shared.results, i)[0].world;
    ResultExactly(o, existing, steps, i, w);
    forall n | 0 <= n < |steps|
      ensures !FailsAt(o, existing, steps, n, i, w) && !SkipsAt(o, existing, steps, n, i, w)
    {
      NothingHinders(o, existing, steps, n, i, w);
    }
  }

  lemma NothingHinders(o: Options, existing: set<string>, steps: seq<Step>, n: nat, i: nat, w: string)
    requires i < |o.guesses| && o.guesses[i] != "" && SafeRun(steps) && n < |steps|
    requires Unhindered(o, Run(o, existing, steps[..n]), i, steps[n])
    ensures !FailsAt(o, existing, steps, n, i, w) && !SkipsAt(o, existing, steps, n, i, w)
  {
    var s := Run(o, existing, steps[..n]);
    assert SafeRun(steps[..n]);
    RunKeepsInvariant(o, existing, steps[..n]);
    if w in s.shared.seen {
      SeenWasPublished(o, existing, steps[..n], w);
    }
  }

  // ----- Names and leftovers

  /** The world that a goroutine has in hand. */
  predicate InHand(p: Place, w: string) {
    p == Rendered(w) || p == Checking(w) || p == Replacing(w) || p == Renaming(w) || p == Named(w)
  }

  /** The renderer gave goroutine i this world, or none, and then it is the guess. */
  ghost predicate Gave(o: Options, steps: seq<Step>, i: nat, w: string)
    requires i < |o.guesses|
  {
    Go(i, Render(w)) in steps || (w == o.guesses[i] && Go(i, Render("")) in steps)
  }

  lemma MoveKeepsWorld(o: Options, i: nat, p: Place, sh: Shared, move: Move, w: string)
    requires i < |o.guesses|
    ensures var (p', sh') := Advance(o, i, p, sh, move);
      && (InHand(p', w) ==> InHand(p, w) || (w != "" && move == Render(w)) || (w == o.guesses[i] && move == Render("")))
      && ((i, w) in sh'.published ==> (i, w) in sh.published || InHand(p, w))
  {}

  /** A world is published, and in a goroutine's hands before, under the name that its own rendering gave it, or under
      the guess if that gave none. */
  lemma {:induction false} PublishedUnderItsName(o: Options, existing: set<string>, steps: seq<Step>, i: nat, w: string)
    requires i < |o.guesses|
    ensures var s := Run(o, existing, steps);
      InHand(s.places[i], w) || (i, w) in s.shared.published ==> Gave(o, steps, i, w)
  {
    if steps != [] {
      var init, last := steps[..|steps| - 1], steps[|steps| - 1];
      assert steps == init + [last];
      var s := Run(o, existing, init);
      PublishedUnderItsName(o, existing, init, i, w);
      if last.Go? && last.i < |s.places| {
        MoveKeepsWorld(o, last.i, s.places[last.i], s.shared, last.move, w);
        MoveClaims(o, last.i, s.places[last.i], s.shared, last.move);
      }
    }
  }

  /** A working directory is there for a reason: it was left behind by an earlier run, its goroutine is still at work on
      it, or it could not be discarded. */
  ghost predicate Accountable(o: Options, existing: set<string>, steps: seq<Step>, i: nat)
    requires i < |o.guesses|
  {
    var s, working := Run(o, existing, steps), WorkingDir(o, i);
    working in s.shared.dirs ==>
      || (working in existing && s.shared.dirs[working] == Preexisting)
      || HasOutput(s.places[i]) || s.places[i].Discarding?
      || Go(i, Discard(true)) in steps
  }

  lemma MoveAccounts(o: Options, i: nat, p: Place, sh: Shared, move: Move)
    requires i < |o.guesses| && SafePlace(p)
    ensures var (p', sh') := Advance(o, i, p, sh, move); var working := WorkingDir(o, i);
      working in sh'.dirs ==>
        || (working in sh.dirs && sh'.dirs[working] == sh.dirs[working] && !HasOutput(p) && !p.Discarding?)
        || HasOutput(p') || p'.Discarding? || move == Discard(true)
  {
    var world := if p.Renaming? then p.world else "";
    DirectoriesDistinct(o.guesses[i], i, o.guesses[i], i, world);
  }

  lemma {:induction false} WorkingDirAccounted(o: Options, existing: set<string>, steps: seq<Step>, i: nat)
    requires i < |o.guesses| && SafeRun(steps)
    ensures Accountable(o, existing, steps, i)
  {
    if steps != [] {
      var init, last := steps[..|steps| - 1], steps[|steps| - 1];
      assert steps == init + [last] && SafeRun(init);
      var s := Run(o, existing, init);
      RunKeepsInvariant(o, existing, init);
      WorkingDirAccounted(o, existing, init, i);
      if last.Go? && last.i < |s.places| {
        if last.i == i {
          MoveAccounts(o, i, s.places[i], s.shared, last.move);
        } else {
          OtherWorkingDir(o, s, last.i, i, last.move);
        }
      }
    }
  }

  /** Once all goroutines have finished, the working directories that are left are those of an earlier run that were
      never cleaned, and those that could not be discarded. */
  lemma NothingLeftBehind(o: Options, existing: set<string>, steps: seq<Step>, i: nat)
    requires i < |o.guesses| && SafeRun(steps) && AllFinished(Run(o, existing, steps))
    requires Go(i, Discard(true)) !in steps && WorkingDir(o, i) in Run(o, existing, steps).shared.dirs
    ensures WorkingDir(o, i) in existing && Run(o, existing, steps).shared.dirs[WorkingDir(o, i)] == Preexisting
  {
    WorkingDirAccounted(o, existing, steps, i);
    assert Run(o, existing, steps).places[i].Finished?;
  }

  // ----- Existing directories under force

  lemma RunMore(o: Options, existing: set<string>, steps: seq<Step>, step: Step)
    ensures Run(o, existing, steps + [step]) == Next(o, Run(o, existing, steps), step)
  {
    assert (steps + [step])[..|steps|] == steps;
  }

  /** Goroutine i has failed on this world, or is about to find out whether it has. */
  ghost predicate Failing(s: State, i: nat, w: string) {
    || (i < |s.places| && s.places[i] in {Renaming(w), Discarding(Failed(w)), Reporting(Failed(w))})
    || (i, Failed(w)) in s.shared.results
  }

  /** What has become of a directory that existed: it is still there, or a published output has taken its place; or it
      is lost, and an input that was to take its place fails. */
  ghost predicate Fate(o: Options, s: State, w: string) {
    || (w in s.shared.dirs && s.shared.dirs[w] == Preexisting)
    || (exists i :: (i, w) in s.shared.published && w in s.shared.dirs && s.shared.dirs[w] == Input(i))
    || (w !in s.shared.dirs && o.force && exists i :: Failing(s, i, w))
  }

  /** What a goroutine does to the directory it is publishing over. */
  lemma MoveOver(o: Options, existing: set<string>, s: State, i: nat, move: Move, w: string)
    requires |s.places| == |o.guesses| && i < |s.places| && IsKept(o, existing, w) && Undisturbed(o, s)
    requires PlaceOk(o, existing, s.shared, i, s.places[i]) && s.places[i] in {Replacing(w), Renaming(w)}
    requires Fate(o, s, w)
    ensures Fate(o, Next(o, s, Go(i, move)), w)
  {
    var s' := Next(o, s, Go(i, move));
    if s.places[i] == Replacing(w) && move == Replace(false) {
      assert Failing(s', i, w);
    } else if s.places[i] == Renaming(w) && s'.places[i] == Named(w) {
      assert (i, w) in s'.shared.published;
    } else if s.places[i] == Renaming(w) && s'.places[i] != Renaming(w) {
      assert s'.places[i] == Discarding(Failed(w));
      assert Failing(s', i, w);
    } else {
      FailingStays(o, s, i, move, w);
    }
  }

  /** A failure is not forgotten unless the goroutine succeeds in renaming. */
  lemma FailingStays(o: Options, s: State, i: nat, move: Move, w: string)
    requires |s.places| == |o.guesses| && i < |s.places|
    requires s.places[i] == Renaming(w) ==> Next(o, s, Go(i, move)).places[i] == Renaming(w)
    ensures forall k :: Failing(s, k, w) ==> Failing(Next(o, s, Go(i, move)), k, w)
    ensures forall pub <- s.shared.published :: pub in Next(o, s, Go(i, move)).shared.published
  {
    MoveResults(o, i, s.places[i], s.shared, move);
    MoveClaims(o, i, s.places[i], s.shared, move);
  }

  lemma FateStep(o: Options, existing: set<string>, s: State, step: Step, w: string)
    requires Invariant(o, existing, s) && Undisturbed(o, s) && IsKept(o, existing, w) && Fate(o, s, w)
    ensures Fate(o, Next(o, s, step), w)
  {
    match step {
      case Spawn =>
        assert forall k :: Failing(s, k, w) ==> Failing(Next(o, s, step), k, w);
      case Go(i, move) =>
        if i < |s.places| {
          assert PlaceOk(o, existing, s.shared, i, s.places[i]);
          if s.places[i] in {Replacing(w), Renaming(w)} {
            MoveOver(o, existing, s, i, move, w);
          } else {
            FailingStays(o, s, i, move, w);
            MoveDirs(o, i, s.places[i], s.shared, move, w);
          }
        }
    }
  }

  /** A directory that existed beforehand, other than a working directory left behind, is there at every moment of
      every run, as it was or replaced by an output that was published; unless overwriting is forced and an input that
      was to replace it fails after the old directory was removed. */
  lemma {:induction false} LostOnlyByFailure(o: Options, existing: set<string>, steps: seq<Step>, w: string)
    requires IsKept(o, existing, w) && SafeRun(steps)
    ensures Fate(o, Run(o, existing, steps), w)
  {
    if steps != [] {
      var init, last := steps[..|steps| - 1], steps[|steps| - 1];
      assert SafeRun(init);
      RunKeepsInvariant(o, existing, init);
      LostOnlyByFailure(o, existing, init, w);
      FateStep(o, existing, Run(o, existing, init), last, w);
    }
  }

  /** So once all goroutines have finished, a lost directory is among the failed worlds. */
  lemma LossIsReported(o: Options, existing: set<string>, steps: seq<Step>, w: string)
    requires IsKept(o, existing, w) && SafeRun(steps) && AllFinished(Run(o, existing, steps))
    ensures var sh := Run(o, existing, steps).shared;
      w in sh.dirs || (o.force && exists r <- sh.results :: r.1 == Failed(w))
  {
    LostOnlyByFailure(o, existing, steps, w);
    var s := Run(o, existing, steps);
    if w !in s.shared.dirs {
      var i: nat :| Failing(s, i, w);
      assert i < |s.places| ==> s.places[i].Finished?;
      assert (i, Failed(w)) in s.shared.results;
    }
  }

  const FORCED := Options(["altis"], 1, true)

  function UpToRender(): seq<Step> {
    [Spawn] + [Go(0, CheckGuess(false))] + [Go(0, Clean(false))] + [Go(0, Render("altis"))]
  }

  function UpToRename(): seq<Step> {
    UpToRender() + [Go(0, Lock)] + [Go(0, Check(false))] + [Go(0, Replace(false))]
  }

  function OneGoroutine(p: Place, lock: Option<nat>, dirs: map<string, Owner>): State {
    State([p], 1, Shared(lock, {}, dirs, [], []))
  }

  lemma UpToRenderReached(o: Options, e: set<string>, w: string, dirs: map<string, Owner>)
    requires w == "altis" && o.guesses == [w] && o.jobs == 1 && (o.force || w !in dirs)
    requires dirs == map n | n in e :: Preexisting
    ensures var working := WorkingDir(o, 0);
      Run(o, e, UpToRender()) == OneGoroutine(Rendered(w), None, (dirs - {working})[working := Input(0)])
  {
    var working := WorkingDir(o, 0);
    assert Initial(o, e) == State([NotSpawned], 0, Shared(None, {}, dirs, [], []));
    assert Slots([NotSpawned]) == 0 by {
      assert [NotSpawned][..0] == [];
    }
    assert [] + [Spawn] == [Spawn];
    RunMore(o, e, [], Spawn);
    assert Run(o, e, [Spawn]) == OneGoroutine(Running, None, dirs);
    var s2 := [Spawn] + [Go(0, CheckGuess(false))];
    RunMore(o, e, [Spawn], Go(0, CheckGuess(false)));
    assert Run(o, e, s2) == OneGoroutine(Cleaning, None, dirs);
    var s3 := s2 + [Go(0, Clean(false))];
    RunMore(o, e, s2, Go(0, Clean(false)));
    assert Run(o, e, s3) == OneGoroutine(Rendering, None, dirs - {working});
    RunMore(o, e, s3, Go(0, Render(w)));
  }

  lemma UpToRenameReached(o: Options, e: set<string>, w: string, dirs: map<string, Owner>)
    requires w == "altis" && o.guesses == [w] && o.jobs == 1 && (o.force || w !in dirs)
    requires dirs == map n | n in e :: Preexisting
    ensures var working := WorkingDir(o, 0);
      Run(o, e, UpToRename()) == OneGoroutine(Renaming(w), Some(0), (dirs - {working})[working := Input(0)] - {w})
  {
    var working := WorkingDir(o, 0);
    var rendered := (dirs - {working})[working := Input(0)];
    UpToRenderReached(o, e, w, dirs);
    DirectoriesDistinct(w, 0, w, 0, w);
    var s4 := UpToRender();
    var s5 := s4 + [Go(0, Lock)];
    RunMore(o, e, s4, Go(0, Lock));
    assert Run(o, e, s5) == OneGoroutine(Checking(w), Some(0), rendered);
    var s6 := s5 + [Go(0, Check(false))];
    RunMore(o, e, s5, Go(0, Check(false)));
    assert Run(o, e, s6) == OneGoroutine(Replacing(w), Some(0), rendered);
    RunMore(o, e, s6, Go(0, Replace(false)));
  }

  /** And it can be lost: the last rename fails. */
  lemma ExistingCanBeLost(w: string)
    requires w == "altis"
    ensures var s := Run(FORCED, {w}, UpToRename() + [Go(0, Rename(true))]);
      IsKept(FORCED, {w}, w) && w !in s.shared.dirs && s.places == [Discarding(Failed(w))]
  {
    DirectoriesDistinct(w, 0, w, 0, w);
    UpToRenameReached(FORCED, {w}, w, map[w := Preexisting]);
    RunMore(FORCED, {w}, UpToRename(), Go(0, Rename(true)));
  }

  const UNFORCED := Options(["altis"], 1, false)

  /** And without force, a world that nothing stands in the way of gets published. */
  lemma UnforcedPublishes(w: string)
    requires w == "altis"
    ensures var s := Run(UNFORCED, {}, UpToRename() + [Go(0, Rename(false))] + [Go(0, MarkSeen)]);
      && s.places == [Reporting(Published(w))] && s.shared.published == [(0, w)]
      && s.shared.dirs == map[w := Input(0)]
  {
    var working := WorkingDir(UNFORCED, 0);
    DirectoriesDistinct(w, 0, w, 0, w);
    UpToRenameReached(UNFORCED, {}, w, map[]);
    var dirs := (map[] - {working})[working := Input(0)] - {w};
    assert dirs == map[working := Input(0)];
    var renamed := UpToRename() + [Go(0, Rename(false))];
    RunMore(UNFORCED, {}, UpToRename(), Go(0, Rename(false)));
    var s := Run(UNFORCED, {}, renamed);
    assert s.places == [Named(w)];
    assert s.shared.dirs == map[w := Input(0)];
    RunMore(UNFORCED, {}, renamed, Go(0, MarkSeen));
  }

  // ----- Every run comes to an end, and can

  /** The most moves that a goroutine can still make. */
  function Rank(p: Place): nat {
    match p
    case NotSpawned => 12
    case Running => 11
    case Cleaning => 10
    case Rendering => 9
    case Rendered(_) => 8
    case Checking(_) => 7
    case Replacing(_) => 6
    case Renaming(_) => 5
    case Named(_) => 4
    case Discarding(_) => 3
    case Reporting(_) => 2
    case Sent => 1
    case Finished => 0
  }

  function Remaining(places: seq<Place>): nat {
    if places == [] then 0 else Remaining(places[..|places| - 1]) + Rank(places[|places| - 1])
  }

  lemma {:induction false} RemainingMove(places: seq<Place>, i: nat, p: Place)
    requires i < |places|
    ensures Remaining(places[i := p]) == Remaining(places) - Rank(places[i]) + Rank(p)
  {
    var n := |places| - 1;
    if i < n {
      RemainingMove(places[..n], i, p);
      assert places[i := p][..n] == places[..n][i := p];
    } else {
      assert places[i := p][..n] == places[..n];
    }
  }

  lemma MoveLowersRank(o: Options, i: nat, p: Place, sh: Shared, move: Move)
    requires i < |o.guesses|
    ensures var (p', sh') := Advance(o, i, p, sh, move); (p', sh') == (p, sh) || Rank(p') < Rank(p)
  {}

  /** A step that changes anything brings the run nearer to its end, so no run can go on for ever. */
  lemma StepLowersRemaining(o: Options, existing: set<string>, s: State, step: Step)
    requires Invariant(o, existing, s) && Next(o, s, step) != s
    ensures Remaining(Next(o, s, step).places) < Remaining(s.places)
  {
    match step {
      case Spawn => RemainingMove(s.places, s.next, Running);
      case Go(i, move) =>
        MoveLowersRank(o, i, s.places[i], s.shared, move);
        RemainingMove(s.places, i, Advance(o, i, s.places[i], s.shared, move).0);
    }
  }

  /** A move that a goroutine holding a slot can make, unless it has to wait for the lock. */
  function SomeMove(p: Place): Move {
    match p
    case Running => CheckGuess(false)
    case Cleaning => Clean(false)
    case Rendering => RenderFails(false)
    case Rendered(_) => Lock
    case Checking(_) => Check(false)
    case Replacing(_) => Replace(false)
    case Renaming(_) => Rename(false)
    case Named(_) => MarkSeen
    case Discarding(_) => Discard(false)
    case Reporting(_) => Report
    case _ => Release
  }

  lemma CanMove(o: Options, i: nat, p: Place, sh: Shared)
    requires i < |o.guesses| && HoldsSlot(p) && (p.Rendered? ==> sh.lock.None?)
    ensures Advance(o, i, p, sh, SomeMove(p)).0 != p
  {}

  lemma {:induction false} NoSlotsHeld(places: seq<Place>)
    requires forall i :: 0 <= i < |places| ==> !HoldsSlot(places[i])
    ensures Slots(places) == 0
  {
    if places != [] {
      NoSlotsHeld(places[..|places| - 1]);
    }
  }

  /** There is no deadlock: until all goroutines have finished, some step changes something. The number of jobs is at
      least 1, as the command line demands. */
  lemma NeverStuck(o: Options, existing: set<string>, s: State) returns (step: Step)
    requires o.jobs >= 1 && Invariant(o, existing, s) && !AllFinished(s)
    ensures Next(o, s, step) != s
  {
    if i :| 0 <= i < |s.places| && HoldsSlot(s.places[i]) {
      var j := if s.places[i].Rendered? && s.shared.lock.Some? then s.shared.lock.value else i;
      CanMove(o, j, s.places[j], s.shared);
      step := Go(j, SomeMove(s.places[j]));
      assert Next(o, s, step).places[j] != s.places[j];
    } else {
      NoSlotsHeld(s.places);
      step := Spawn;
    }
  }

  /** From every reachable state the run can be brought to its end. */
  lemma {:induction false} CanFinish(o: Options, existing: set<string>, steps: seq<Step>) returns (all: seq<Step>)
    requires o.jobs >= 1
    ensures steps <= all && AllFinished(Run(o, existing, all))
    decreases Remaining(Run(o, existing, steps).places)
  {
    RunKeepsInvariant(o, existing, steps);
    var s := Run(o, existing, steps);
    if AllFinished(s) {
      all := steps;
    } else {
      var step := NeverStuck(o, existing, s);
      StepLowersRemaining(o, existing, s, step);
      RunMore(o, existing, steps, step);
      all := CanFinish(o, existing, steps + [step]);
    }
  }

  // ----- The summary

  datatype Summary = Summary(ok: seq<string>, skipped: seq<string>, failed: set<string>)

  function Worlds(results: seq<(nat, Outcome)>, keep: Outcome -> bool): seq<string> {
    if results == [] then []
    else
      var r := results[|results| - 1];
      Worlds(results[..|results| - 1], keep) + if keep(r.1) then [r.1.world] else []
  }

  /** Collects the results; the exit code is 0 exactly if no input failed. */
  method Summarize(results: seq<(nat, Outcome)>) returns (s: Summary, code: int)
    ensures s.ok == Worlds(results, (o: Outcome) => o.Published?)
    ensures s.skipped == Worlds(results, (o: Outcome) => o.Skipped?)
    ensures s.failed == set r | r in results && r.1.Failed? :: r.1.world
    ensures code == if exists r <- results :: r.1.Failed? then 1 else 0
  {
    s := Summary([], [], {});
    for n := 0 to |results|
      invariant s.ok == Worlds(results[..n], (o: Outcome) => o.Published?)
      invariant s.skipped == Worlds(results[..n], (o: Outcome) => o.Skipped?)
      invariant s.failed == set r | r in results[..n] && r.1.Failed? :: r.1.world
    {
      var r := results[n];
      assert results[..n + 1][..n] == results[..n] && results[..n + 1] == results[..n] + [r];
      match r.1 {
        case Failed(w) => s := s.(failed := s.failed + {w});
        case Skipped(w) => s := s.(skipped := s.skipped + [w]);
        case Published(w) => s := s.(ok := s.ok + [w]);
      }
    }
    assert results[..|results|] == results;
    code := if |s.failed| > 0 then 1 else 0;
    if r :| r in results && r.1.Failed? {
      assert r.1.world in s.failed;
    }
  }
}
