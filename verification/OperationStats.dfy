/** Statistics of an operation, counted from its manifest (computeStats in internal/conversion/worker.go). */
module OperationStats {
  import opened Common

  datatype Entity = Entity(kind: string, id: uint32, isPlayer: bool, name: string, side: string)

  datatype Event = Event(kind: string, source: uint32, target: uint32)

  datatype SideCount = SideCount(units: nat, players: nat, kills: nat, dead: nat)

  type SideComposition = map<string, SideCount>

  const NOTHING := SideCount(0, 0, 0, 0)

  /** Go's map lookup: a missing side counts nothing. */
  function At(sides: SideComposition, side: string): SideCount {
    if side in sides then sides[side] else NOTHING
  }

  predicate IsUnit(e: Entity) {
    e.kind == "unit"
  }

  predicate IsPlayerUnit(e: Entity) {
    IsUnit(e) && e.isPlayer
  }

  /** A unit on a side that is counted. */
  predicate HasSide(e: Entity) {
    IsUnit(e) && e.side != "" && e.side != "UNKNOWN" && e.side != "GLOBAL"
  }

  // ----- What is counted

  function PlayerNames(entities: seq<Entity>): set<string> {
    set e | e in entities && IsPlayerUnit(e) && e.name != "" :: e.name
  }

  function UnnamedPlayers(entities: seq<Entity>): seq<Entity> {
    if entities == [] then []
    else
      var n := |entities| - 1;
      UnnamedPlayers(entities[..n])
      + if IsPlayerUnit(entities[n]) && entities[n].name == "" then [entities[n]] else []
  }

  /** The sides of units, unit by unit. */
  function UnitSides(entities: seq<Entity>): seq<string> {
    if entities == [] then []
    else
      var n := |entities| - 1;
      UnitSides(entities[..n]) + if HasSide(entities[n]) then [entities[n].side] else []
  }

  function NamesOn(entities: seq<Entity>, side: string): set<string> {
    set e | e in entities && HasSide(e) && e.side == side && e.isPlayer && e.name != "" :: e.name
  }

  /** The sides of player units without a name. */
  function UnnamedSides(entities: seq<Entity>): seq<string> {
    if entities == [] then []
    else
      var n := |entities| - 1;
      UnnamedSides(entities[..n])
      + if HasSide(entities[n]) && entities[n].isPlayer && entities[n].name == "" then [entities[n].side] else []
  }

  /** The side recorded for an ID: that of its last unit with one. */
  function SideOf(entities: seq<Entity>, id: uint32): Option<string> {
    if entities == [] then None
    else
      var n := |entities| - 1;
      if HasSide(entities[n]) && entities[n].id == id then Some(entities[n].side) else SideOf(entities[..n], id)
  }

  predicate IsPlayerId(entities: seq<Entity>, id: uint32) {
    exists e :: e in entities && IsPlayerUnit(e) && e.id == id
  }

  function Kills(events: seq<Event>): seq<Event> {
    if events == [] then []
    else
      var n := |events| - 1;
      Kills(events[..n]) + if events[n].kind == "killed" then [events[n]] else []
  }

  function PlayerKills(entities: seq<Entity>, events: seq<Event>): seq<Event> {
    if events == [] then []
    else
      var n := |events| - 1;
      PlayerKills(entities, events[..n])
      + if events[n].kind == "killed" && IsPlayerId(entities, events[n].source) then [events[n]] else []
  }

  /** The side a kill is attributed to, if one is recorded for its source. */
  function KillerSide(entities: seq<Entity>, e: Event): Option<string> {
    if e.kind == "killed" then SideOf(entities, e.source) else None
  }

  /** The side a death is attributed to, if one is recorded for its target. */
  function VictimSide(entities: seq<Entity>, e: Event): Option<string> {
    if e.kind == "killed" then SideOf(entities, e.target) else None
  }

  /** The recorded sides of the sources of kills, kill by kill. */
  function KillerSides(entities: seq<Entity>, events: seq<Event>): seq<string> {
    if events == [] then []
    else
      var n := |events| - 1;
      var side := KillerSide(entities, events[n]);
      KillerSides(entities, events[..n]) + if side.Some? then [side.value] else []
  }

  /** The recorded sides of the targets of kills, kill by kill. */
  function VictimSides(entities: seq<Entity>, events: seq<Event>): seq<string> {
    if events == [] then []
    else
      var n := |events| - 1;
      var side := VictimSide(entities, events[n]);
      VictimSides(entities, events[..n]) + if side.Some? then [side.value] else []
  }

  function UnitsOn(entities: seq<Entity>, side: string): nat {
    multiset(UnitSides(entities))[side]
  }

  /** The players of a side: its distinct names, and its units without one. */
  function PlayersOn(entities: seq<Entity>, side: string): nat {
    |NamesOn(entities, side)| + multiset(UnnamedSides(entities))[side]
  }

  // ----- One entity more

  lemma NamesGrow(before: seq<Entity>, e: Entity)
    ensures PlayerNames(before + [e]) == PlayerNames(before) + if IsPlayerUnit(e) && e.name != "" then {e.name} else {}
    ensures |UnnamedPlayers(before + [e])|
         == |UnnamedPlayers(before)| + if IsPlayerUnit(e) && e.name == "" then 1 else 0
  {
    assert (before + [e])[..|before|] == before;
  }

  lemma NamesOnGrow(before: seq<Entity>, e: Entity, side: string)
    ensures NamesOn(before + [e], side) == NamesOn(before, side)
      + if HasSide(e) && e.side == side && e.isPlayer && e.name != "" then {e.name} else {}
  {}

  lemma UnitsGrow(before: seq<Entity>, e: Entity, side: string)
    ensures UnitsOn(before + [e], side) == UnitsOn(before, side) + if HasSide(e) && e.side == side then 1 else 0
  {
    assert (before + [e])[..|before|] == before;
  }

  /** e is a player that side has not counted yet. */
  predicate IsNewOn(before: seq<Entity>, e: Entity, side: string) {
    HasSide(e) && e.side == side && e.isPlayer && (e.name == "" || e.name !in NamesOn(before, side))
  }

  lemma PlayersGrow(before: seq<Entity>, e: Entity, side: string)
    ensures PlayersOn(before + [e], side) == PlayersOn(before, side) + if IsNewOn(before, e, side) then 1 else 0
  {
    assert (before + [e])[..|before|] == before;
    NamesOnGrow(before, e, side);
    if IsNewOn(before, e, side) && e.name != "" {
      assert NamesOn(before + [e], side) == NamesOn(before, side) + {e.name};
    } else {
      assert NamesOn(before + [e], side) == NamesOn(before, side);
    }
  }

  /** A side never has more players than units. */
  lemma {:induction false} PlayersAtMostUnits(entities: seq<Entity>, side: string)
    ensures PlayersOn(entities, side) <= UnitsOn(entities, side)
  {
    if entities != [] {
      var n := |entities| - 1;
      assert entities[..n] + [entities[n]] == entities;
      PlayersAtMostUnits(entities[..n], side);
      PlayersGrow(entities[..n], entities[n], side);
      UnitsGrow(entities[..n], entities[n], side);
    }
  }

  // ----- Counting entities

  ghost predicate PlayersCounted(entities: seq<Entity>, seen: set<string>, count: nat) {
    && count == |PlayerNames(entities)| + |UnnamedPlayers(entities)|
    && PlayerNames(entities) == seen - {""}
  }

  ghost predicate UnitsCounted(entities: seq<Entity>, sides: SideComposition) {
    && (forall s :: s in sides <==> s in UnitSides(entities))
    && forall s :: At(sides, s) == SideCount(UnitsOn(entities, s), PlayersOn(entities, s), 0, 0)
  }

  function SidesOf(seen: map<string, set<string>>, name: string): set<string> {
    if name in seen then seen[name] else {}
  }

  ghost predicate NamesSeen(entities: seq<Entity>, seen: map<string, set<string>>) {
    forall name, s :: name in NamesOn(entities, s) <==> s in SidesOf(seen, name)
  }

  method CountPlayer(e: Entity, ghost before: seq<Entity>, seen: set<string>, count: nat)
    returns (seen': set<string>, count': nat)
    requires PlayersCounted(before, seen, count)
    ensures PlayersCounted(before + [e], seen', count')
  {
    seen', count' := seen, count;
    NamesGrow(before, e);
    if IsPlayerUnit(e) && (e.name == "" || e.name !in seen) {
      seen' := seen + {e.name};
      count' := count + 1;
      assert e.name != "" ==> |PlayerNames(before + [e])| == |PlayerNames(before)| + 1;
    } else {
      assert PlayerNames(before + [e]) == PlayerNames(before);
    }
  }

  lemma SeenGrow(before: seq<Entity>, e: Entity, seen: map<string, set<string>>)
    requires NamesSeen(before, seen)
    ensures NamesSeen(before + [e], if HasSide(e) && e.isPlayer && e.name != ""
                                    then seen[e.name := SidesOf(seen, e.name) + {e.side}] else seen)
  {
    var counted := HasSide(e) && e.isPlayer && e.name != "";
    var seen' := if counted then seen[e.name := SidesOf(seen, e.name) + {e.side}] else seen;
    forall name, s
      ensures name in NamesOn(before + [e], s) <==> s in SidesOf(seen', name)
    {
      NamesOnGrow(before, e, s);
      assert name in NamesOn(before, s) <==> s in SidesOf(seen, name);
      assert s in SidesOf(seen', name) <==> s in SidesOf(seen, name) || (counted && name == e.name && s == e.side);
    }
  }

  /** Whether a unit adds a player to its side, given the sides on which each name has been counted. */
  method CountOnSide(e: Entity, ghost before: seq<Entity>, seen: map<string, set<string>>)
    returns (isNew: bool, seen': map<string, set<string>>)
    requires NamesSeen(before, seen) && HasSide(e)
    ensures isNew == IsNewOn(before, e, e.side)
    ensures NamesSeen(before + [e], seen')
  {
    SeenGrow(before, e, seen);
    isNew, seen' := false, seen;
    if e.isPlayer {
      if e.name == "" {
        isNew := true;
      } else {
        var on := SidesOf(seen, e.name);
        assert e.side in on <==> e.name in NamesOn(before, e.side);
        isNew := e.side !in on;
        if isNew {
          seen' := seen[e.name := on + {e.side}];
        }
      }
    }
  }

  function WithUnit(sides: SideComposition, side: string, isNew: bool): SideComposition {
    var sc := At(sides, side);
    sides[side := SideCount(sc.units + 1, sc.players + if isNew then 1 else 0, sc.kills, sc.dead)]
  }

  /** The counts of one side after one more entity. */
  lemma CountGrows(before: seq<Entity>, e: Entity, sides: SideComposition, s: string)
    requires At(sides, s) == SideCount(UnitsOn(before, s), PlayersOn(before, s), 0, 0)
    ensures var sides' := if HasSide(e) then WithUnit(sides, e.side, IsNewOn(before, e, e.side)) else sides;
      At(sides', s) == SideCount(UnitsOn(before + [e], s), PlayersOn(before + [e], s), 0, 0)
  {
    UnitsGrow(before, e, s);
    PlayersGrow(before, e, s);
  }

  lemma SidesGrow(before: seq<Entity>, e: Entity, s: string)
    ensures s in UnitSides(before + [e]) <==> s in UnitSides(before) || (HasSide(e) && s == e.side)
  {
    assert (before + [e])[..|before|] == before;
  }

  lemma CountsGrow(before: seq<Entity>, e: Entity, sides: SideComposition)
    requires UnitsCounted(before, sides)
    ensures HasSide(e) ==> UnitsCounted(before + [e], WithUnit(sides, e.side, IsNewOn(before, e, e.side)))
    ensures !HasSide(e) ==> UnitsCounted(before + [e], sides)
  {
    var sides' := if HasSide(e) then WithUnit(sides, e.side, IsNewOn(before, e, e.side)) else sides;
    forall s
      ensures s in sides' <==> s in UnitSides(before + [e])
    {
      SidesGrow(before, e, s);
    }
    forall s
      ensures At(sides', s) == SideCount(UnitsOn(before + [e], s), PlayersOn(before + [e], s), 0, 0)
    {
      CountGrows(before, e, sides, s);
    }
  }

  method CountUnit(e: Entity, ghost before: seq<Entity>, sides: SideComposition, seen: map<string, set<string>>)
    returns (sides': SideComposition, seen': map<string, set<string>>)
    requires UnitsCounted(before, sides) && NamesSeen(before, seen)
    ensures UnitsCounted(before + [e], sides') && NamesSeen(before + [e], seen')
  {
    CountsGrow(before, e, sides);
    if HasSide(e) {
      var isNew;
      isNew, seen' := CountOnSide(e, before, seen);
      sides' := WithUnit(sides, e.side, isNew);
    } else {
      SeenGrow(before, e, seen);
      sides', seen' := sides, seen;
    }
  }

  /** What the entities give: the number of players, the sides, and the side and player status of each ID. */
  method CountEntities(entities: seq<Entity>)
    returns (playerCount: nat, sides: SideComposition, entitySide: map<uint32, string>, playerIds: set<uint32>)
    ensures playerCount == |PlayerNames(entities)| + |UnnamedPlayers(entities)|
    ensures UnitsCounted(entities, sides)
    ensures SidesRecorded(entities, entitySide)
    ensures PlayersRecorded(entities, playerIds)
  {
    playerCount, sides, entitySide, playerIds := 0, map[], map[], {};
    var seenName, seenSide := {}, map[];
    for i := 0 to |entities|
      invariant PlayersCounted(entities[..i], seenName, playerCount)
      invariant UnitsCounted(entities[..i], sides) && NamesSeen(entities[..i], seenSide)
      invariant SidesRecorded(entities[..i], entitySide)
      invariant PlayersRecorded(entities[..i], playerIds)
    {
      var e := entities[i];
      ghost var before := entities[..i];
      assert entities[..i + 1] == before + [e];
      seenName, playerCount := CountPlayer(e, before, seenName, playerCount);
      sides, seenSide := CountUnit(e, before, sides, seenSide);
      RecordedGrow(before, e, entitySide, playerIds);
      if IsPlayerUnit(e) {
        playerIds := playerIds + {e.id};
      }
      if HasSide(e) {
        entitySide := entitySide[e.id := e.side];
      }
    }
    assert entities[..|entities|] == entities;
  }

  ghost predicate SidesRecorded(entities: seq<Entity>, entitySide: map<uint32, string>) {
    forall id: uint32 :: SideOf(entities, id) == if id in entitySide then Some(entitySide[id]) else None
  }

  ghost predicate PlayersRecorded(entities: seq<Entity>, playerIds: set<uint32>) {
    forall id: uint32 :: id in playerIds <==> IsPlayerId(entities, id)
  }

  lemma RecordedGrow(before: seq<Entity>, e: Entity, entitySide: map<uint32, string>, playerIds: set<uint32>)
    requires SidesRecorded(before, entitySide) && PlayersRecorded(before, playerIds)
    ensures SidesRecorded(before + [e], if HasSide(e) then entitySide[e.id := e.side] else entitySide)
    ensures PlayersRecorded(before + [e], if IsPlayerUnit(e) then playerIds + {e.id} else playerIds)
  {
    assert (before + [e])[..|before|] == before;
    assert forall x :: x in before + [e] <==> x in before || x == e;
  }

  lemma {:induction false} RecordedSideHasUnit(entities: seq<Entity>, id: uint32)
    requires SideOf(entities, id).Some?
    ensures SideOf(entities, id).value in UnitSides(entities)
  {
    var n := |entities| - 1;
    if !(HasSide(entities[n]) && entities[n].id == id) {
      RecordedSideHasUnit(entities[..n], id);
    }
  }

  // ----- Counting events

  /** Each side of units has its share of the kills and deaths. */
  ghost predicate Shared(units: SideComposition, kills: seq<string>, deaths: seq<string>, sides: SideComposition) {
    && sides.Keys == units.Keys
    && forall s | s in sides ::
         sides[s] == SideCount(units[s].units, units[s].players, multiset(kills)[s], multiset(deaths)[s])
  }

  function WithKill(sides: SideComposition, side: string): SideComposition {
    var sc := At(sides, side);
    sides[side := SideCount(sc.units, sc.players, sc.kills + 1, sc.dead)]
  }

  function WithDeath(sides: SideComposition, side: string): SideComposition {
    var sc := At(sides, side);
    sides[side := SideCount(sc.units, sc.players, sc.kills, sc.dead + 1)]
  }

  lemma OneMore(kills: seq<string>, side: string, s: string)
    ensures multiset(kills + [side])[s] == multiset(kills)[s] + if s == side then 1 else 0
  {}

  lemma SharedWithKill(units: SideComposition, kills: seq<string>, deaths: seq<string>, sides: SideComposition,
                       side: string)
    requires Shared(units, kills, deaths, sides) && side in units
    ensures Shared(units, kills + [side], deaths, WithKill(sides, side))
  {
    assert side in sides;
    forall s
      ensures multiset(kills + [side])[s] == multiset(kills)[s] + if s == side then 1 else 0
    {
      OneMore(kills, side, s);
    }
  }

  lemma SharedWithDeath(units: SideComposition, kills: seq<string>, deaths: seq<string>, sides: SideComposition,
                        side: string)
    requires Shared(units, kills, deaths, sides) && side in units
    ensures Shared(units, kills, deaths + [side], WithDeath(sides, side))
  {
    assert side in sides;
    forall s
      ensures multiset(deaths + [side])[s] == multiset(deaths)[s] + if s == side then 1 else 0
    {
      OneMore(deaths, side, s);
    }
  }

  ghost predicate EventsCounted(entities: seq<Entity>, events: seq<Event>, units: SideComposition,
                                sides: SideComposition)
  {
    Shared(units, KillerSides(entities, events), VictimSides(entities, events), sides)
  }

  /** Attributes a kill and a death to the recorded sides, if any. */
  method Attribute(e: Event, ghost entities: seq<Entity>, ghost before: seq<Event>, ghost units: SideComposition,
                   entitySide: map<uint32, string>, sides: SideComposition) returns (sides': SideComposition)
    requires e.kind == "killed" && SidesRecorded(entities, entitySide)
    requires forall s | s in UnitSides(entities) :: s in units
    requires EventsCounted(entities, before, units, sides)
    ensures EventsCounted(entities, before + [e], units, sides')
  {
    ghost var kills, deaths := KillerSides(entities, before), VictimSides(entities, before);
    assert (before + [e])[..|before|] == before;
    sides' := sides;
    if e.source in entitySide {
      var side := entitySide[e.source];
      assert KillerSide(entities, e) == Some(side);
      RecordedSideHasUnit(entities, e.source);
      SharedWithKill(units, kills, deaths, sides', side);
      sides' := WithKill(sides', side);
      kills := kills + [side];
    }
    assert kills == KillerSides(entities, before + [e]);
    if e.target in entitySide {
      var side := entitySide[e.target];
      assert VictimSide(entities, e) == Some(side);
      RecordedSideHasUnit(entities, e.target);
      SharedWithDeath(units, kills, deaths, sides', side);
      sides' := WithDeath(sides', side);
      deaths := deaths + [side];
    }
    assert deaths == VictimSides(entities, before + [e]);
  }

  lemma KillsGrow(entities: seq<Entity>, before: seq<Event>, e: Event)
    ensures |Kills(before + [e])| == |Kills(before)| + if e.kind == "killed" then 1 else 0
    ensures |PlayerKills(entities, before + [e])|
         == |PlayerKills(entities, before)| + if e.kind == "killed" && IsPlayerId(entities, e.source) then 1 else 0
    ensures e.kind != "killed" ==> KillerSides(entities, before + [e]) == KillerSides(entities, before)
    ensures e.kind != "killed" ==> VictimSides(entities, before + [e]) == VictimSides(entities, before)
  {
    assert (before + [e])[..|before|] == before;
  }

  method CountEvents(events: seq<Event>, ghost entities: seq<Entity>, units: SideComposition,
                     entitySide: map<uint32, string>, playerIds: set<uint32>)
    returns (killCount: nat, playerKillCount: nat, sides: SideComposition)
    requires UnitsCounted(entities, units)
    requires SidesRecorded(entities, entitySide) && PlayersRecorded(entities, playerIds)
    ensures killCount == |Kills(events)| && playerKillCount == |PlayerKills(entities, events)|
    ensures EventsCounted(entities, events, units, sides)
  {
    killCount, playerKillCount, sides := 0, 0, units;
    assert EventsCounted(entities, [], units, sides) by {
      assert forall s | s in units :: units[s] == At(units, s);
    }
    assert events[..0] == [];
    for i := 0 to |events|
      invariant killCount == |Kills(events[..i])| && playerKillCount == |PlayerKills(entities, events[..i])|
      invariant EventsCounted(entities, events[..i], units, sides)
    {
      var e := events[i];
      ghost var before := events[..i];
      assert events[..i + 1] == before + [e];
      KillsGrow(entities, before, e);
      if e.kind == "killed" {
        killCount := killCount + 1;
        if e.source in playerIds {
          playerKillCount := playerKillCount + 1;
        }
        sides := Attribute(e, entities, before, units, entitySide, sides);
      }
    }
    assert events[..|events|] == events;
  }

  /** The whole count: distinct named players and unnamed ones, kills, and what each side has. */
  method ComputeStats(entities: seq<Entity>, events: seq<Event>)
    returns (playerCount: nat, killCount: nat, playerKillCount: nat, sides: SideComposition)
    ensures playerCount == |PlayerNames(entities)| + |UnnamedPlayers(entities)|
    ensures killCount == |Kills(events)| && playerKillCount == |PlayerKills(entities, events)|
    ensures IsComposition(entities, events, sides)
  {
    var units, entitySide, playerIds;
    playerCount, units, entitySide, playerIds := CountEntities(entities);
    killCount, playerKillCount, sides := CountEvents(events, entities, units, entitySide, playerIds);
    assert forall s | s in units :: units[s] == At(units, s);
  }

  /** The sides are those of units, each with its units, players, and kills and deaths by recorded side. */
  ghost predicate IsComposition(entities: seq<Entity>, events: seq<Event>, sides: SideComposition) {
    && (forall s :: s in sides <==> s in UnitSides(entities))
    && forall s | s in sides :: sides[s] == SideCount(UnitsOn(entities, s), PlayersOn(entities, s),
         multiset(KillerSides(entities, events))[s], multiset(VictimSides(entities, events))[s])
  }

  // ----- The counts, in numbers of entities and events

  lemma IndexesGrow<T>(before: seq<T>, e: T, p: T -> bool)
    ensures |Indexes(before + [e], p)| == |Indexes(before, p)| + if p(e) then 1 else 0
  {
    assert Indexes(before + [e], p) == Indexes(before, p) + if p(e) then {|before|} else {};
  }

  ghost function Indexes<T>(s: seq<T>, p: T -> bool): set<nat> {
    set i: nat | i < |s| && p(s[i])
  }

  /** A unit on a side that is none of "", "UNKNOWN" and "GLOBAL". */
  predicate OnSide(e: Entity, side: string) {
    e.kind == "unit" && e.side == side && side != "" && side != "UNKNOWN" && side != "GLOBAL"
  }

  lemma {:induction false} UnnamedPlayersCounted(entities: seq<Entity>)
    ensures |UnnamedPlayers(entities)|
         == |Indexes(entities, (e: Entity) => e.kind == "unit" && e.isPlayer && e.name == "")|
  {
    if entities != [] {
      var n := |entities| - 1;
      UnnamedPlayersCounted(entities[..n]);
      IndexesGrow(entities[..n], entities[n], (e: Entity) => e.kind == "unit" && e.isPlayer && e.name == "");
      assert entities[..n] + [entities[n]] == entities;
    }
  }

  lemma {:induction false} UnitSidesCounted(entities: seq<Entity>, s: string)
    ensures multiset(UnitSides(entities))[s] == |Indexes(entities, (e: Entity) => OnSide(e, s))|
  {
    if entities != [] {
      var n := |entities| - 1;
      UnitSidesCounted(entities[..n], s);
      IndexesGrow(entities[..n], entities[n], (e: Entity) => OnSide(e, s));
      assert entities[..n] + [entities[n]] == entities;
    }
  }

  lemma {:induction false} UnnamedSidesCounted(entities: seq<Entity>, s: string)
    ensures multiset(UnnamedSides(entities))[s]
         == |Indexes(entities, (e: Entity) => OnSide(e, s) && e.isPlayer && e.name == "")|
  {
    if entities != [] {
      var n := |entities| - 1;
      UnnamedSidesCounted(entities[..n], s);
      IndexesGrow(entities[..n], entities[n], (e: Entity) => OnSide(e, s) && e.isPlayer && e.name == "");
      assert entities[..n] + [entities[n]] == entities;
    }
  }

  /** The last unit with this ID that is on a side is on this one. */
  ghost predicate LastOn(entities: seq<Entity>, id: uint32, side: string) {
    exists i: nat :: i < |entities| && OnSide(entities[i], side) && entities[i].id == id
      && forall j, other :: i < j < |entities| && OnSide(entities[j], other) ==> entities[j].id != id
  }

  lemma {:induction false} SideOfMeans(entities: seq<Entity>, id: uint32, side: string)
    ensures SideOf(entities, id) == Some(side) <==> LastOn(entities, id, side)
  {
    if entities != [] {
      var n := |entities| - 1;
      SideOfMeans(entities[..n], id, side);
      assert HasSide(entities[n]) <==> OnSide(entities[n], entities[n].side);
      if HasSide(entities[n]) && entities[n].id == id {
        assert LastOn(entities, id, side) <==> entities[n].side == side;
      } else {
        LastOnGrows(entities, id, side);
      }
    }
  }

  lemma LastOnGrows(entities: seq<Entity>, id: uint32, side: string)
    requires entities != [] && !(HasSide(entities[|entities| - 1]) && entities[|entities| - 1].id == id)
    ensures LastOn(entities, id, side) <==> LastOn(entities[..|entities| - 1], id, side)
  {
    var n := |entities| - 1;
    if i: nat :| i < |entities| && OnSide(entities[i], side) && entities[i].id == id
                 && forall j, other :: i < j < |entities| && OnSide(entities[j], other) ==> entities[j].id != id {
      assert i < n && entities[..n][i] == entities[i];
    }
    if i: nat :| i < n && OnSide(entities[..n][i], side) && entities[..n][i].id == id
                 && forall j, other :: i < j < n && OnSide(entities[..n][j], other) ==> entities[..n][j].id != id {
      forall j, other | i < j < |entities| && OnSide(entities[j], other)
        ensures entities[j].id != id
      {
        assert j < n ==> entities[..n][j] == entities[j];
      }
    }
  }

  lemma {:induction false} EventSidesCounted(entities: seq<Entity>, events: seq<Event>, s: string)
    ensures multiset(KillerSides(entities, events))[s]
         == |Indexes(events, (e: Event) => e.kind == "killed" && LastOn(entities, e.source, s))|
    ensures multiset(VictimSides(entities, events))[s]
         == |Indexes(events, (e: Event) => e.kind == "killed" && LastOn(entities, e.target, s))|
  {
    if events != [] {
      var n := |events| - 1;
      var e := events[n];
      EventSidesCounted(entities, events[..n], s);
      IndexesGrow(events[..n], e, (e: Event) => e.kind == "killed" && LastOn(entities, e.source, s));
      IndexesGrow(events[..n], e, (e: Event) => e.kind == "killed" && LastOn(entities, e.target, s));
      SideOfMeans(entities, e.source, s);
      SideOfMeans(entities, e.target, s);
      assert events[..n] + [e] == events;
    }
  }

  /** A player unit has this ID. */
  predicate IsPlayersId(entities: seq<Entity>, id: uint32) {
    exists e <- entities :: e.kind == "unit" && e.isPlayer && e.id == id
  }

  lemma {:induction false} KillsCounted(entities: seq<Entity>, events: seq<Event>)
    ensures |Kills(events)| == |Indexes(events, (e: Event) => e.kind == "killed")|
    ensures |PlayerKills(entities, events)|
         == |Indexes(events, (e: Event) => e.kind == "killed" && IsPlayersId(entities, e.source))|
  {
    if events != [] {
      var n := |events| - 1;
      var e := events[n];
      KillsCounted(entities, events[..n]);
      IndexesGrow(events[..n], e, (e: Event) => e.kind == "killed");
      IndexesGrow(events[..n], e, (e: Event) => e.kind == "killed" && IsPlayersId(entities, e.source));
      assert IsPlayerId(entities, e.source) <==> IsPlayersId(entities, e.source);
      assert events[..n] + [e] == events;
    }
  }

  /** What a side has: its units, its players by distinct name and without one, the kills whose source is on it, and the
      deaths whose target is. */
  lemma SideExactly(entities: seq<Entity>, events: seq<Event>, sides: SideComposition, s: string)
    requires IsComposition(entities, events, sides)
    ensures s in sides <==> exists i: nat :: i < |entities| && OnSide(entities[i], s)
    ensures s in sides ==>
      && sides[s].units == |Indexes(entities, (e: Entity) => OnSide(e, s))|
      && sides[s].players == |set e | e in entities && OnSide(e, s) && e.isPlayer && e.name != "" :: e.name|
                             + |Indexes(entities, (e: Entity) => OnSide(e, s) && e.isPlayer && e.name == "")|
      && sides[s].kills == |Indexes(events, (e: Event) => e.kind == "killed" && LastOn(entities, e.source, s))|
      && sides[s].dead == |Indexes(events, (e: Event) => e.kind == "killed" && LastOn(entities, e.target, s))|
  {
    UnitSidesCounted(entities, s);
    UnnamedSidesCounted(entities, s);
    EventSidesCounted(entities, events, s);
    assert NamesOn(entities, s) == set e | e in entities && OnSide(e, s) && e.isPlayer && e.name != "" :: e.name;
    assert s in multiset(UnitSides(entities)) <==> s in UnitSides(entities);
    var units := Indexes(entities, (e: Entity) => OnSide(e, s));
    if i: nat :| i < |entities| && OnSide(entities[i], s) {
      assert i in units;
    }
    if units != {} {
      var i :| i in units;
      assert OnSide(entities[i], s);
    }
  }

  /** The totals: players by distinct name and without one, kills, and kills by players. */
  lemma TotalsExactly(entities: seq<Entity>, events: seq<Event>)
    ensures |PlayerNames(entities)| + |UnnamedPlayers(entities)|
         == |set e | e in entities && e.kind == "unit" && e.isPlayer && e.name != "" :: e.name|
            + |Indexes(entities, (e: Entity) => e.kind == "unit" && e.isPlayer && e.name == "")|
    ensures |Kills(events)| == |Indexes(events, (e: Event) => e.kind == "killed")|
    ensures |PlayerKills(entities, events)|
         == |Indexes(events, (e: Event) => e.kind == "killed" && IsPlayersId(entities, e.source))|
  {
    UnnamedPlayersCounted(entities);
    KillsCounted(entities, events);
    assert PlayerNames(entities) == set e | e in entities && e.kind == "unit" && e.isPlayer && e.name != "" :: e.name;
  }

  // ----- Sums over sides

  ghost function Any(keys: set<string>): (k: string)
    requires keys != {}
    ensures k in keys
  {
    var k :| k in keys;
    k
  }

  ghost function Sum(sides: SideComposition, keys: set<string>, count: SideCount -> nat): nat
    requires keys <= sides.Keys
  {
    if keys == {} then 0 else count(sides[Any(keys)]) + Sum(sides, keys - {Any(keys)}, count)
  }

  lemma {:induction false} SumIsSize(sides: SideComposition, keys: set<string>, count: SideCount -> nat,
                                     m: multiset<string>)
    requires keys <= sides.Keys
    requires forall s :: s in m ==> s in keys
    requires forall s | s in keys :: count(sides[s]) == m[s]
    ensures Sum(sides, keys, count) == |m|
  {
    if keys == {} {
      assert m == multiset{};
    } else {
      var k := Any(keys);
      var rest := m[k := 0];
      assert forall s | s in keys - {k} :: rest[s] == m[s];
      SumIsSize(sides, keys - {k}, count, rest);
      assert m == rest[k := m[k]];
    }
  }

  lemma {:induction false} EventSidesHaveUnits(entities: seq<Entity>, events: seq<Event>)
    ensures forall s | s in KillerSides(entities, events) || s in VictimSides(entities, events) ::
              s in UnitSides(entities)
  {
    if events != [] {
      var e := events[|events| - 1];
      EventSidesHaveUnits(entities, events[..|events| - 1]);
      if SideOf(entities, e.source).Some? {
        RecordedSideHasUnit(entities, e.source);
      }
      if SideOf(entities, e.target).Some? {
        RecordedSideHasUnit(entities, e.target);
      }
    }
  }

  /** Over all sides, kills sum to the kills whose source has a recorded side, and deaths to those whose target has
      one; and no side has more players than units. */
  lemma SidesAddUp(entities: seq<Entity>, events: seq<Event>, sides: SideComposition)
    requires IsComposition(entities, events, sides)
    ensures Sum(sides, sides.Keys, (c: SideCount) => c.kills) == |KillerSides(entities, events)|
    ensures Sum(sides, sides.Keys, (c: SideCount) => c.dead) == |VictimSides(entities, events)|
    ensures Sum(sides, sides.Keys, (c: SideCount) => c.units) == |UnitSides(entities)|
    ensures forall s | s in sides :: sides[s].players <= sides[s].units
  {
    EventSidesHaveUnits(entities, events);
    SumIsSize(sides, sides.Keys, (c: SideCount) => c.kills, multiset(KillerSides(entities, events)));
    SumIsSize(sides, sides.Keys, (c: SideCount) => c.dead, multiset(VictimSides(entities, events)));
    SumIsSize(sides, sides.Keys, (c: SideCount) => c.units, multiset(UnitSides(entities)));
    forall s | s in sides
      ensures sides[s].players <= sides[s].units
    {
      PlayersAtMostUnits(entities, s);
    }
  }
}
