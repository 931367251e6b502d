/** Tracing contour lines through an elevation grid (internal/maptool/contour.go, marchingSquares). */
module MarchingSquares {
  import opened Common
  import opened ContourChaining

  /** Row 0 is the south edge; heights are stored row by row. */
  datatype Grid = Grid(w: nat, h: nat, cellSize: real, originX: real, originY: real, elevation: seq<real>)

  predicate WellFormed(g: Grid) {
    |g.elevation| == g.w * g.h
  }

  lemma IndexInGrid(g: Grid, row: nat, col: nat)
    requires row < g.h && col < g.w
    ensures row * g.w + col < g.w * g.h
  {
    assert (row + 1) * g.w <= g.h * g.w;
  }

  function Height(g: Grid, row: nat, col: nat): real
    requires WellFormed(g) && row < g.h && col < g.w
  {
    IndexInGrid(g, row, col);
    g.elevation[row * g.w + col]
  }

  function X(g: Grid, col: int): real {
    g.originX + col as real * g.cellSize
  }

  function Z(g: Grid, row: int): real {
    g.originY + row as real * g.cellSize
  }

  // ----- Lattice edges and where a contour crosses them

  /** The edge from corner (row, col) to its eastern (Along) or northern (Up) neighbour. */
  datatype Edge = Along(row: int, col: int) | Up(row: int, col: int)

  predicate OnLattice(g: Grid, e: Edge) {
    && 0 <= e.row && 0 <= e.col
    && match e
       case Along(r, c) => r < g.h && c + 1 < g.w
       case Up(r, c) => r + 1 < g.h && c < g.w
  }

  function Tail(g: Grid, e: Edge): real
    requires WellFormed(g) && OnLattice(g, e)
  {
    Height(g, e.row, e.col)
  }

  function Head(g: Grid, e: Edge): real
    requires WellFormed(g) && OnLattice(g, e)
  {
    if e.Along? then Height(g, e.row, e.col + 1) else Height(g, e.row + 1, e.col)
  }

  predicate Straddles(g: Grid, level: real, e: Edge)
    requires WellFormed(g)
  {
    OnLattice(g, e) && (Tail(g, e) >= level) != (Head(g, e) >= level)
  }

  function Lerp(level: real, v1: real, v2: real, a: real, b: real): real {
    if v2 == v1 then (a + b) / 2.0 else a + (level - v1) / (v2 - v1) * (b - a)
  }

  function CrossingPoint(g: Grid, level: real, e: Edge): Point
    requires WellFormed(g) && OnLattice(g, e)
  {
    match e
    case Along(r, c) => Point(Lerp(level, Tail(g, e), Head(g, e), X(g, c), X(g, c + 1)), Z(g, r))
    case Up(r, c) => Point(X(g, c), Lerp(level, Tail(g, e), Head(g, e), Z(g, r), Z(g, r + 1)))
  }

  /** The cells of the elevation data at the two ends of an edge. */
  function From(g: Grid, e: Edge): int {
    e.row * g.w + e.col
  }

  function To(g: Grid, e: Edge): int {
    if e.Along? then e.row * g.w + e.col + 1 else (e.row + 1) * g.w + e.col
  }

  /** An edge of the lattice straddles the level exactly if one of its two heights reaches it and the other does not. */
  lemma EdgeHeights(g: Grid, level: real, e: Edge)
    requires WellFormed(g) && 0 <= e.row && 0 <= e.col
    requires if e.Along? then e.row < g.h && e.col < g.w - 1 else e.row < g.h - 1 && e.col < g.w
    ensures 0 <= From(g, e) < |g.elevation| && 0 <= To(g, e) < |g.elevation|
    ensures Tail(g, e) == g.elevation[From(g, e)] && Head(g, e) == g.elevation[To(g, e)]
    ensures Straddles(g, level, e) <==>
              (g.elevation[From(g, e)] >= level && g.elevation[To(g, e)] < level)
              || (g.elevation[From(g, e)] < level && g.elevation[To(g, e)] >= level)
  {
    IndexInGrid(g, e.row, e.col);
    if e.Along? {
      IndexInGrid(g, e.row, e.col + 1);
    } else {
      IndexInGrid(g, e.row + 1, e.col);
    }
  }

  lemma CrossingBetweenCorners(g: Grid, level: real, e: Edge) returns (t: real)
    requires WellFormed(g) && Straddles(g, level, e)
    ensures 0.0 <= t <= 1.0 && Tail(g, e) + t * (Head(g, e) - Tail(g, e)) == level
    ensures var east, north := if e.Along? then t else 0.0, if e.Up? then t else 0.0;
      CrossingPoint(g, level, e) == Point(X(g, e.col) + east * g.cellSize, Z(g, e.row) + north * g.cellSize)
  {
    var v1, v2 := Tail(g, e), Head(g, e);
    t := (level - v1) / (v2 - v1);
    Fraction(level - v1, v2 - v1);
    assert X(g, e.col + 1) - X(g, e.col) == g.cellSize;
    assert Z(g, e.row + 1) - Z(g, e.row) == g.cellSize;
  }

  /** The crossing point lies on its edge, at the fraction t where the height interpolated between
      the two corners is exactly the level. */
  lemma CrossingLiesOnEdge(g: Grid, level: real, e: Edge) returns (t: real)
    requires WellFormed(g) && Straddles(g, level, e)
    ensures 0.0 <= t <= 1.0
    ensures 0 <= From(g, e) < |g.elevation| && 0 <= To(g, e) < |g.elevation|
    ensures g.elevation[From(g, e)] + t * (g.elevation[To(g, e)] - g.elevation[From(g, e)]) == level
    ensures var east, north := if e.Along? then t else 0.0, if e.Up? then t else 0.0;
      CrossingPoint(g, level, e) == Point(g.originX + (e.col as real + east) * g.cellSize,
                                          g.originY + (e.row as real + north) * g.cellSize)
  {
    t := CrossingBetweenCorners(g, level, e);
    EdgeHeights(g, level, e);
    hide CrossingPoint, Straddles, WellFormed, Tail, Head, From, To;
    OnAxis(g.originX, e.col as real, if e.Along? then t else 0.0, g.cellSize);
    OnAxis(g.originY, e.row as real, if e.Up? then t else 0.0, g.cellSize);
  }

  lemma OnAxis(origin: real, n: real, t: real, size: real)
    ensures origin + n * size + t * size == origin + (n + t) * size
  {}

  lemma Fraction(part: real, whole: real)
    requires 0.0 <= part <= whole != 0.0 || whole <= part <= 0.0 != whole
    ensures 0.0 <= part / whole <= 1.0 && part / whole * whole == part
  {
    var q := part / whole;
    assert q * whole == part;
    assert (1.0 - q) * whole == whole - part;
    SameSign(q, whole);
    SameSign(1.0 - q, whole);
  }

  lemma SameSign(q: real, whole: real)
    requires whole != 0.0 && (whole > 0.0 ==> q * whole >= 0.0) && (whole < 0.0 ==> q * whole <= 0.0)
    ensures q >= 0.0
  {}

  // ----- One cell

  datatype Side = Bottom | Right | Top | Left

  function SideEdge(row: int, col: int, s: Side): Edge {
    match s
    case Bottom => Along(row, col)
    case Right => Up(row, col + 1)
    case Top => Along(row + 1, col)
    case Left => Up(row, col)
  }

  predicate IsCell(g: Grid, row: int, col: int) {
    0 <= row < g.h - 1 && 0 <= col < g.w - 1
  }

  /** The case table: which sides the segments of a cell connect. */
  function CellPairs(bl: bool, br: bool, tr: bool, tl: bool, average: bool): seq<(Side, Side)> {
    var caseIndex := (if bl then 1 else 0) + (if br then 2 else 0) + (if tr then 4 else 0) + if tl then 8 else 0;
    match caseIndex
    case 1 => [(Bottom, Left)]
    case 2 => [(Right, Bottom)]
    case 3 => [(Right, Left)]
    case 4 => [(Top, Right)]
    case 5 => if average then [(Top, Left), (Bottom, Right)] else [(Bottom, Left), (Top, Right)]
    case 6 => [(Top, Bottom)]
    case 7 => [(Top, Left)]
    case 8 => [(Left, Top)]
    case 9 => [(Bottom, Top)]
    case 10 => if average then [(Bottom, Right), (Top, Left)] else [(Right, Bottom), (Left, Top)]
    case 11 => [(Right, Top)]
    case 12 => [(Left, Right)]
    case 13 => [(Bottom, Right)]
    case 14 => [(Left, Bottom)]
    case _ => []
  }

  /** In a saddle cell every segment cuts off one corner. */
  function CutCorner(p: (Side, Side)): Option<(Side, Side)> {
    match p
    case (Bottom, Left) => Some((Bottom, Left))
    case (Left, Bottom) => Some((Bottom, Left))
    case (Bottom, Right) => Some((Bottom, Right))
    case (Right, Bottom) => Some((Bottom, Right))
    case (Top, Right) => Some((Top, Right))
    case (Right, Top) => Some((Top, Right))
    case (Top, Left) => Some((Top, Left))
    case (Left, Top) => Some((Top, Left))
    case _ => None
  }

  predicate CornerHigh(bl: bool, br: bool, tr: bool, tl: bool, c: (Side, Side)) {
    match c
    case (Bottom, Left) => bl
    case (Bottom, Right) => br
    case (Top, Right) => tr
    case _ => tl
  }

  /** The saddle is resolved by its average: with a high centre the low corners are cut off, with a low
      centre the high ones. */
  predicate ResolvedByAverage(bl: bool, br: bool, tr: bool, tl: bool, average: bool) {
    forall p <- CellPairs(bl, br, tr, tl, average) ::
      CutCorner(p).Some? && CornerHigh(bl, br, tr, tl, CutCorner(p).value) != average
  }

  /** Only one of the two saddles consults the average: with the south-west and north-east corners low
      (case 10), both branches pair the same sides, so a high centre is resolved as if it were low. */
  lemma SaddleResolution(bl: bool, br: bool, tr: bool, tl: bool, average: bool)
    requires bl == tr && br == tl && bl != br
    ensures ResolvedByAverage(bl, br, tr, tl, average) <==> bl || !average
  {
    var pairs := CellPairs(bl, br, tr, tl, average);
    assert pairs[0] in pairs;
  }

  /** A cell with high south-east and north-west corners and a high centre, whose high corners are cut off all the
      same. */
  lemma UnresolvedSaddle()
    ensures var g := Grid(2, 2, 1.0, 0.0, 0.0, [0.0, 10.0, 10.0, 0.0]);
      && WellFormed(g) && IsCell(g, 0, 0)
      && Height(g, 0, 0) == Height(g, 1, 1) == 0.0 && Height(g, 0, 1) == Height(g, 1, 0) == 10.0
      && Pairs(g, 4.0, 0, 0) == [(Bottom, Right), (Top, Left)]
      && !ResolvedByAverage(false, true, false, true, true)
  {
    assert (Bottom, Right) in CellPairs(false, true, false, true, true);
  }

  /** The sides of a cell, counterclockwise; corner c lies between sides c and c + 1, so that 0 is south-east and 3
      south-west. */
  function Turn(s: Side): nat {
    match s
    case Bottom => 0
    case Right => 1
    case Top => 2
    case Left => 3
  }

  /** Corner c lies to the left of a segment that runs from one side to another. */
  predicate OnLeft(p: (Side, Side), c: nat) {
    if Turn(p.1) <= Turn(p.0) then Turn(p.1) <= c < Turn(p.0) else Turn(p.1) <= c || c < Turn(p.0)
  }

  /** All high corners are on the left of the segment and all low ones on its right. */
  predicate HighOnLeft(bl: bool, br: bool, tr: bool, tl: bool, p: (Side, Side)) {
    OnLeft(p, 0) == br && OnLeft(p, 1) == tr && OnLeft(p, 2) == tl && OnLeft(p, 3) == bl
  }

  function CornerIndex(c: (Side, Side)): nat {
    match c
    case (Bottom, Left) => 3
    case (Bottom, Right) => 0
    case (Top, Right) => 1
    case _ => 2
  }

  /** Contours are traced with the high ground on their left. */
  lemma HighGroundOnLeft(bl: bool, br: bool, tr: bool, tl: bool, average: bool, p: (Side, Side))
    requires p in CellPairs(bl, br, tr, tl, average) && !(bl == tr && br == tl)
    ensures HighOnLeft(bl, br, tr, tl, p)
  {}

  /** In a saddle that goes for the corner that a segment cuts off, and it fails exactly in the saddle with high
      south-east and north-west corners and a high centre, whose segments run the other way. */
  lemma SaddleRunsBackwards(bl: bool, br: bool, tr: bool, tl: bool, average: bool, p: (Side, Side))
    requires p in CellPairs(bl, br, tr, tl, average) && bl == tr && br == tl && bl != br
    ensures CutCorner(p).Some?
    ensures var corner := CutCorner(p).value;
      (OnLeft(p, CornerIndex(corner)) <==> CornerHigh(bl, br, tr, tl, corner)) <==> !(br && average)
  {}

  // ----- Counting segment ends on lattice edges

  /** A segment that runs between two lattice edges. */
  datatype Crossing = Crossing(from: Edge, to: Edge) {
    ghost function EndsOn(e: Edge): nat {
      Mark(from == e) + Mark(to == e)
    }
  }

  /** How many segment ends lie on lattice edge e. */
  ghost function Uses(cs: seq<Crossing>, e: Edge): nat {
    if cs == [] then 0 else Uses(cs[..|cs| - 1], e) + cs[|cs| - 1].EndsOn(e)
  }

  lemma {:induction false} UsesConcat(cs: seq<Crossing>, ds: seq<Crossing>, e: Edge)
    ensures Uses(cs + ds, e) == Uses(cs, e) + Uses(ds, e)
  {
    if ds == [] {
      assert cs + ds == cs;
    } else {
      var n := |ds| - 1;
      assert (cs + ds)[..|cs + ds| - 1] == cs + ds[..n];
      UsesConcat(cs, ds[..n], e);
    }
  }

  function Pairs(g: Grid, level: real, row: int, col: int): seq<(Side, Side)>
    requires WellFormed(g) && IsCell(g, row, col)
  {
    var bl, br := Height(g, row, col), Height(g, row, col + 1);
    var tr, tl := Height(g, row + 1, col + 1), Height(g, row + 1, col);
    CellPairs(bl >= level, br >= level, tr >= level, tl >= level, (bl + br + tr + tl) / 4.0 >= level)
  }

  /** How the program resolves a saddle, by its four heights. With high south-west and north-east corners the low
      corners are cut off if the heights average at least the level, and the high ones otherwise; with high south-east
      and north-west corners the high ones always. */
  lemma SaddlePairs(g: Grid, level: real, row: int, col: int, bl: real, br: real, tr: real, tl: real)
    requires WellFormed(g) && IsCell(g, row, col)
    requires bl == Height(g, row, col) && br == Height(g, row, col + 1)
    requires tr == Height(g, row + 1, col + 1) && tl == Height(g, row + 1, col)
    ensures bl >= level && tr >= level && br < level && tl < level ==>
      Pairs(g, level, row, col) ==
        if bl + br + tr + tl >= 4.0 * level then [(Top, Left), (Bottom, Right)] else [(Bottom, Left), (Top, Right)]
    ensures bl < level && tr < level && br >= level && tl >= level ==>
      Pairs(g, level, row, col) ==
        if bl + br + tr + tl >= 4.0 * level then [(Bottom, Right), (Top, Left)] else [(Right, Bottom), (Left, Top)]
  {}

  ghost function CellCrossings(g: Grid, level: real, row: int, col: int): seq<Crossing>
    requires WellFormed(g) && IsCell(g, row, col)
  {
    var pairs := Pairs(g, level, row, col);
    seq(|pairs|, i requires 0 <= i < |pairs| =>
      Crossing(SideEdge(row, col, pairs[i].0), SideEdge(row, col, pairs[i].1)))
  }

  predicate IsSide(row: int, col: int, e: Edge) {
    exists s :: SideEdge(row, col, s) == e
  }

  predicate SideStraddles(bl: bool, br: bool, tr: bool, tl: bool, s: Side) {
    match s
    case Bottom => bl != br
    case Right => br != tr
    case Top => tl != tr
    case Left => bl != tl
  }

  ghost function SideUses(pairs: seq<(Side, Side)>, s: Side): nat
    requires |pairs| <= 2
  {
    (if |pairs| >= 1 then Mark(pairs[0].0 == s) + Mark(pairs[0].1 == s) else 0)
    + if |pairs| == 2 then Mark(pairs[1].0 == s) + Mark(pairs[1].1 == s) else 0
  }

  /** The case table touches a side exactly once if its two corners differ, and not at all otherwise. */
  lemma CaseTable(bl: bool, br: bool, tr: bool, tl: bool, average: bool, s: Side)
    ensures |CellPairs(bl, br, tr, tl, average)| <= 2
    ensures SideUses(CellPairs(bl, br, tr, tl, average), s) == Mark(SideStraddles(bl, br, tr, tl, s))
  {}

  lemma {:induction false} UsesOfTwo(cs: seq<Crossing>, e: Edge)
    requires |cs| <= 2
    ensures Uses(cs, e) == (if |cs| >= 1 then cs[0].EndsOn(e) else 0) + if |cs| == 2 then cs[1].EndsOn(e) else 0
  {
    if |cs| == 2 {
      assert cs[..1][..0] == [];
      assert Uses(cs[..1], e) == cs[0].EndsOn(e);
    }
  }

  lemma SideEdgesDiffer(row: int, col: int, s: Side, s': Side)
    ensures SideEdge(row, col, s) == SideEdge(row, col, s') <==> s == s'
  {}

  lemma CrossingsOnSide(g: Grid, level: real, row: int, col: int, s: Side)
    requires WellFormed(g) && IsCell(g, row, col) && |Pairs(g, level, row, col)| <= 2
    ensures Uses(CellCrossings(g, level, row, col), SideEdge(row, col, s)) == SideUses(Pairs(g, level, row, col), s)
  {
    UsesOfTwo(CellCrossings(g, level, row, col), SideEdge(row, col, s));
    forall s' {
      SideEdgesDiffer(row, col, s', s);
    }
  }

  /** The corners of a side decide whether it straddles the level. */
  predicate CellSideStraddles(g: Grid, level: real, row: int, col: int, s: Side)
    requires WellFormed(g) && IsCell(g, row, col)
  {
    SideStraddles(Height(g, row, col) >= level, Height(g, row, col + 1) >= level,
                  Height(g, row + 1, col + 1) >= level, Height(g, row + 1, col) >= level, s)
  }

  lemma SideStraddlesLevel(g: Grid, level: real, row: int, col: int, s: Side)
    requires WellFormed(g) && IsCell(g, row, col)
    ensures Straddles(g, level, SideEdge(row, col, s)) <==> CellSideStraddles(g, level, row, col, s)
  {}

  lemma CellCaseTable(g: Grid, level: real, row: int, col: int, s: Side)
    requires WellFormed(g) && IsCell(g, row, col)
    ensures |Pairs(g, level, row, col)| <= 2
    ensures SideUses(Pairs(g, level, row, col), s) == Mark(CellSideStraddles(g, level, row, col, s))
  {
    var bl, br := Height(g, row, col), Height(g, row, col + 1);
    var tr, tl := Height(g, row + 1, col + 1), Height(g, row + 1, col);
    CaseTable(bl >= level, br >= level, tr >= level, tl >= level, (bl + br + tr + tl) / 4.0 >= level, s);
  }

  /** A cell's segments use each side that straddles the level exactly once, and no other edge. */
  lemma CellUsesStraddlingSides(g: Grid, level: real, row: int, col: int, e: Edge)
    requires WellFormed(g) && IsCell(g, row, col)
    ensures Uses(CellCrossings(g, level, row, col), e) == Mark(IsSide(row, col, e) && Straddles(g, level, e))
  {
    CellCaseTable(g, level, row, col, Bottom);
    if s :| SideEdge(row, col, s) == e {
      CellCaseTable(g, level, row, col, s);
      CrossingsOnSide(g, level, row, col, s);
      SideStraddlesLevel(g, level, row, col, s);
    } else {
      UsesOfTwo(CellCrossings(g, level, row, col), e);
    }
  }

  ghost function Flatten(css: seq<seq<Crossing>>): seq<Crossing> {
    if css == [] then [] else Flatten(css[..|css| - 1]) + css[|css| - 1]
  }

  ghost function RowCells(g: Grid, level: real, row: int, n: int): seq<seq<Crossing>>
    requires WellFormed(g) && 0 <= row < g.h - 1 && 0 <= n <= g.w - 1
  {
    seq(n, col requires 0 <= col < n => CellCrossings(g, level, row, col))
  }

  /** The crossings of the first n cells of a row. */
  ghost function RowCrossings(g: Grid, level: real, row: int, n: int): seq<Crossing>
    requires WellFormed(g) && 0 <= row < g.h - 1 && 0 <= n <= g.w - 1
  {
    Flatten(RowCells(g, level, row, n))
  }

  ghost function Rows(g: Grid, level: real, n: int): seq<seq<Crossing>>
    requires WellFormed(g) && g.w > 0 && 0 <= n <= g.h - 1
  {
    seq(n, row requires 0 <= row < n => RowCrossings(g, level, row, g.w - 1))
  }

  /** The crossings of the first n rows of cells, row by row and cell by cell. */
  ghost function Crossings(g: Grid, level: real, n: int): seq<Crossing>
    requires WellFormed(g) && g.w > 0 && 0 <= n <= g.h - 1
  {
    Flatten(Rows(g, level, n))
  }

  ghost function AllCrossings(g: Grid, level: real): seq<Crossing>
    requires WellFormed(g)
  {
    if g.w == 0 || g.h == 0 then [] else Crossings(g, level, g.h - 1)
  }

  /** The segment joins two sides of one cell, as the case table has it. */
  ghost predicate FromCell(g: Grid, level: real, c: Crossing, row: int, col: int)
    requires WellFormed(g)
  {
    IsCell(g, row, col) && c in CellCrossings(g, level, row, col)
  }

  lemma {:induction false} InFlatten(css: seq<seq<Crossing>>, c: Crossing) returns (i: nat)
    requires c in Flatten(css)
    ensures i < |css| && c in css[i]
  {
    var n := |css| - 1;
    if c in css[n] {
      i := n;
    } else {
      i := InFlatten(css[..n], c);
    }
  }

  /** Every crossing joins two sides of a single cell: contours never jump between cells. */
  lemma EveryCrossingIsLocal(g: Grid, level: real, c: Crossing)
    requires WellFormed(g) && c in AllCrossings(g, level)
    ensures exists row, col :: FromCell(g, level, c, row, col)
  {
    var row := InFlatten(Rows(g, level, g.h - 1), c);
    var col := InFlatten(RowCells(g, level, row, g.w - 1), c);
    assert FromCell(g, level, c, row, col);
  }

  /** Cell (r, c) exists and comes before (row, col) in the scan. */
  predicate Done(g: Grid, r: int, c: int, row: int, col: int) {
    IsCell(g, r, c) && (r < row || (r == row && c < col))
  }

  /** How many of the (at most two) cells beside e come before (row, col) in the scan. */
  function CellsDone(g: Grid, e: Edge, row: int, col: int): nat {
    (if Done(g, e.row, e.col, row, col) then 1 else 0)
    + match e
      case Along(r, c) => (if Done(g, r - 1, c, row, col) then 1 else 0)
      case Up(r, c) => (if Done(g, r, c - 1, row, col) then 1 else 0)
  }

  /** How many cells lie beside e: two inside the grid, one on its border. */
  function CellsBeside(g: Grid, e: Edge): nat {
    CellsDone(g, e, g.h, 0)
  }

  predicate OnBorder(g: Grid, e: Edge) {
    CellsBeside(g, e) == 1
  }

  lemma AdvanceCell(g: Grid, e: Edge, row: int, col: int)
    requires IsCell(g, row, col)
    ensures CellsDone(g, e, row, col + 1) == CellsDone(g, e, row, col) + Mark(IsSide(row, col, e))
  {
    assert IsSide(row, col, e) <==> e in {SideEdge(row, col, Bottom), SideEdge(row, col, Right),
                                          SideEdge(row, col, Top), SideEdge(row, col, Left)};
  }

  /** A cell adds an end to e exactly if e straddles the level and is one of its sides. */
  lemma CellAdds(g: Grid, level: real, row: int, col: int, e: Edge)
    requires WellFormed(g) && IsCell(g, row, col)
    ensures Uses(CellCrossings(g, level, row, col), e)
         == Due(g, level, e, row, col + 1) - Due(g, level, e, row, col)
  {
    CellUsesStraddlingSides(g, level, row, col, e);
    AdvanceCell(g, e, row, col);
  }

  ghost predicate Adds(css: seq<seq<Crossing>>, e: Edge, counts: seq<int>, i: nat)
    requires i < |css| < |counts|
  {
    Uses(css[i], e) == counts[i + 1] - counts[i]
  }

  /** If each part adds the difference of two counts, the whole adds the difference of the last and the first. */
  lemma {:induction false} UsesFlatten(css: seq<seq<Crossing>>, e: Edge, counts: seq<int>)
    requires |counts| == |css| + 1 && forall i | 0 <= i < |css| :: Adds(css, e, counts, i)
    ensures Uses(Flatten(css), e) == counts[|css|] - counts[0]
  {
    if css != [] {
      var n := |css| - 1;
      var front, sums := css[..n], counts[..n + 1];
      assert Adds(css, e, counts, n);
      forall i | 0 <= i < n
        ensures Adds(front, e, sums, i)
      {
        assert Adds(css, e, counts, i);
      }
      UsesFlatten(front, e, sums);
      UsesConcat(Flatten(css[..n]), css[n], e);
    }
  }

  ghost function Due(g: Grid, level: real, e: Edge, row: int, col: int): nat
    requires WellFormed(g)
  {
    if Straddles(g, level, e) then CellsDone(g, e, row, col) else 0
  }

  lemma CountRow(g: Grid, level: real, row: int, e: Edge)
    requires WellFormed(g) && 0 <= row < g.h - 1 && g.w > 0
    ensures Uses(RowCrossings(g, level, row, g.w - 1), e) == Due(g, level, e, row, g.w - 1) - Due(g, level, e, row, 0)
  {
    var cells := RowCells(g, level, row, g.w - 1);
    var counts := seq(g.w, col => Due(g, level, e, row, col));
    forall col | 0 <= col < |cells|
      ensures Adds(cells, e, counts, col)
    {
      CellAdds(g, level, row, col, e);
    }
    UsesFlatten(cells, e, counts);
  }

  /** After its last cell a row is done. */
  lemma NextRow(g: Grid, row: int, e: Edge)
    requires g.w > 0
    ensures CellsDone(g, e, row, g.w - 1) == CellsDone(g, e, row + 1, 0)
  {}

  lemma CountRows(g: Grid, level: real, e: Edge)
    requires WellFormed(g) && g.w > 0 && g.h > 0
    ensures Uses(AllCrossings(g, level), e) == Due(g, level, e, g.h - 1, 0)
  {
    var rows := Rows(g, level, g.h - 1);
    var counts := seq(g.h, row => Due(g, level, e, row, 0));
    forall row | 0 <= row < |rows|
      ensures Adds(rows, e, counts, row)
    {
      CountRow(g, level, row, e);
      NextRow(g, row, e);
    }
    UsesFlatten(rows, e, counts);
  }

  /** Over the whole grid, every straddling edge carries one segment end for each cell beside it, and no other edge
      carries any. */
  lemma EdgesCounted(g: Grid, level: real, e: Edge)
    requires WellFormed(g)
    ensures Uses(AllCrossings(g, level), e) == if Straddles(g, level, e) then CellsBeside(g, e) else 0
  {
    if g.w > 0 && g.h > 0 {
      CountRows(g, level, e);
      assert CellsDone(g, e, g.h - 1, 0) == CellsBeside(g, e);
    }
  }

  // ----- The program

  /** Segment i runs between the crossing points of the two edges of cs[i]. */
  ghost predicate Located(g: Grid, level: real, segs: seq<Segment>, cs: seq<Crossing>)
    requires WellFormed(g)
  {
    && |segs| == |cs|
    && forall i :: 0 <= i < |segs| ==>
         && OnLattice(g, cs[i].from) && OnLattice(g, cs[i].to)
         && segs[i] == Segment(CrossingPoint(g, level, cs[i].from), CrossingPoint(g, level, cs[i].to))
  }

  /** One cell of the scan: both cells beside an edge compute the same crossing point on it. */
  method TraceCell(g: Grid, level: real, row: int, col: int) returns (segs: seq<Segment>)
    requires WellFormed(g) && IsCell(g, row, col)
    ensures Located(g, level, segs, CellCrossings(g, level, row, col))
  {
    var bl, br := Height(g, row, col), Height(g, row, col + 1);
    var tr, tl := Height(g, row + 1, col + 1), Height(g, row + 1, col);
    var x0, x1, z0, z1 := X(g, col), X(g, col + 1), Z(g, row), Z(g, row + 1);
    var bottom := Point(Lerp(level, bl, br, x0, x1), z0);
    var right := Point(x1, Lerp(level, br, tr, z0, z1));
    var top := Point(Lerp(level, tl, tr, x0, x1), z1);
    var left := Point(x0, Lerp(level, bl, tl, z0, z1));
    var average := (bl + br + tr + tl) / 4.0;
    var pairs := CellPairs(bl >= level, br >= level, tr >= level, tl >= level, average >= level);
    var at := (s: Side) => match s case Bottom => bottom case Right => right case Top => top case Left => left;
    segs := seq(|pairs|, i requires 0 <= i < |pairs| => Segment(at(pairs[i].0), at(pairs[i].1)));
    forall s: Side
      ensures OnLattice(g, SideEdge(row, col, s)) && at(s) == CrossingPoint(g, level, SideEdge(row, col, s))
    {}
  }

  /** The scan: exactly the segments of the cells, row by row and cell by cell. */
  method CollectSegments(g: Grid, level: real) returns (segs: seq<Segment>)
    requires WellFormed(g)
    ensures Located(g, level, segs, AllCrossings(g, level))
    ensures forall e :: Uses(AllCrossings(g, level), e) == if Straddles(g, level, e) then CellsBeside(g, e) else 0
  {
    segs := [];
    var row := 0;
    while row < g.h - 1
      invariant 0 <= row && (row <= g.h - 1 || g.h == row == 0)
      invariant g.w > 0 && g.h > 0 ==> Located(g, level, segs, Crossings(g, level, row))
      invariant g.w == 0 || g.h == 0 ==> segs == []
    {
      var col := 0;
      while col < g.w - 1
        invariant 0 <= col && (col <= g.w - 1 || g.w == col == 0)
        invariant g.w > 0 ==> Located(g, level, segs, CrossingsBefore(g, level, row, col))
        invariant g.w == 0 ==> segs == []
      {
        var cell := TraceCell(g, level, row, col);
        LocatedMore(g, level, segs, cell, row, col);
        segs := segs + cell;
        col := col + 1;
      }
      if g.w > 0 {
        assert Rows(g, level, row + 1)[..row] == Rows(g, level, row);
        assert Crossings(g, level, row + 1) == CrossingsBefore(g, level, row, col);
      }
      row := row + 1;
    }
    forall e {
      EdgesCounted(g, level, e);
    }
  }

  /** The crossings of all cells that come before (row, col) in the scan. */
  ghost function CrossingsBefore(g: Grid, level: real, row: int, col: int): seq<Crossing>
    requires WellFormed(g) && 0 <= row < g.h - 1 && 0 <= col <= g.w - 1
  {
    Crossings(g, level, row) + RowCrossings(g, level, row, col)
  }

  lemma LocatedMore(g: Grid, level: real, segs: seq<Segment>, cell: seq<Segment>, row: int, col: int)
    requires WellFormed(g) && IsCell(g, row, col)
    requires Located(g, level, segs, CrossingsBefore(g, level, row, col))
    requires Located(g, level, cell, CellCrossings(g, level, row, col))
    ensures Located(g, level, segs + cell, CrossingsBefore(g, level, row, col + 1))
  {
    var before, ds := CrossingsBefore(g, level, row, col), CellCrossings(g, level, row, col);
    LocatedConcat(g, level, segs, before, cell, ds);
    assert RowCells(g, level, row, col + 1)[..col] == RowCells(g, level, row, col);
    assert CrossingsBefore(g, level, row, col + 1) == before + ds;
  }

  lemma LocatedConcat(g: Grid, level: real, segs: seq<Segment>, cs: seq<Crossing>, more: seq<Segment>,
                      ds: seq<Crossing>)
    requires WellFormed(g) && Located(g, level, segs, cs) && Located(g, level, more, ds)
    ensures Located(g, level, segs + more, cs + ds)
  {}

  // ----- Border crossings and open contours

  ghost function Toggle(s: set<Edge>, e: Edge): set<Edge> {
    if e in s then s - {e} else s + {e}
  }

  lemma ToggleFlipsParity(s: set<Edge>, e: Edge)
    ensures |Toggle(s, e)| == |s| + 1 || |Toggle(s, e)| == |s| - 1
  {}

  ghost predicate Keyed(g: Grid, level: real, e: Edge, k: Key)
    requires WellFormed(g)
  {
    OnLattice(g, e) && PointKey(CrossingPoint(g, level, e)) == k
  }

  /** The edges keyed k that carry an odd number of ends: pairs of ends on one edge cancel. */
  ghost function OddEdges(g: Grid, level: real, cs: seq<Crossing>, k: Key): set<Edge>
    requires WellFormed(g)
  {
    if cs == [] then {}
    else
      var s, c := OddEdges(g, level, cs[..|cs| - 1], k), cs[|cs| - 1];
      var s' := if Keyed(g, level, c.from, k) then Toggle(s, c.from) else s;
      if Keyed(g, level, c.to, k) then Toggle(s', c.to) else s'
  }

  lemma {:induction false} OddEdgesMeaning(g: Grid, level: real, cs: seq<Crossing>, k: Key, e: Edge)
    requires WellFormed(g)
    ensures e in OddEdges(g, level, cs, k) <==> Keyed(g, level, e, k) && Uses(cs, e) % 2 == 1
  {
    if cs != [] {
      var c := cs[|cs| - 1];
      OddEdgesMeaning(g, level, cs[..|cs| - 1], k, e);
      var before := Uses(cs[..|cs| - 1], e);
      OneMoreEnd(before, c.from == e);
      OneMoreEnd(before + Mark(c.from == e), c.to == e);
    }
  }

  lemma OneMoreEnd(n: nat, more: bool)
    ensures (n + Mark(more)) % 2 == 1 <==> (n % 2 == 1) != more
  {}

  lemma LocatedEnds(g: Grid, level: real, segs: seq<Segment>, cs: seq<Crossing>, n: nat, k: Key)
    requires WellFormed(g) && Located(g, level, segs, cs) && n < |segs|
    ensures EndsAt(segs[n], k) == Mark(Keyed(g, level, cs[n].from, k)) + Mark(Keyed(g, level, cs[n].to, k))
  {}

  lemma OddEdgesStep(g: Grid, level: real, cs: seq<Crossing>, k: Key) returns (half: int)
    requires WellFormed(g) && cs != []
    ensures var n := |cs| - 1;
      |OddEdges(g, level, cs, k)| == |OddEdges(g, level, cs[..n], k)|
        + Mark(Keyed(g, level, cs[n].from, k)) + Mark(Keyed(g, level, cs[n].to, k)) + 2 * half
  {
    var s, c := OddEdges(g, level, cs[..|cs| - 1], k), cs[|cs| - 1];
    var s' := if Keyed(g, level, c.from, k) then Toggle(s, c.from) else s;
    ToggleFlipsParity(s, c.from);
    ToggleFlipsParity(s', c.to);
    half := (if |s'| < |s| then -1 else 0) + if |OddEdges(g, level, cs, k)| < |s'| then -1 else 0;
  }

  lemma {:induction false} DegreeFromEdges(g: Grid, level: real, segs: seq<Segment>, cs: seq<Crossing>, k: Key)
      returns (half: int)
    requires WellFormed(g) && Located(g, level, segs, cs)
    ensures Degree(segs, k) == |OddEdges(g, level, cs, k)| + 2 * half
  {
    var n := |cs| - 1;
    if cs == [] {
      half := 0;
    } else {
      var before := DegreeFromEdges(g, level, segs[..n], cs[..n], k);
      var step := OddEdgesStep(g, level, cs, k);
      LocatedEnds(g, level, segs, cs, n, k);
      half := before - step;
    }
  }

  /** The border edges that the contour crosses at key k. */
  ghost function BorderCrossings(g: Grid, level: real, k: Key): set<Edge>
    requires WellFormed(g)
  {
    set r, c, e | 0 <= r < g.h && 0 <= c < g.w && e in {Along(r, c), Up(r, c)}
               && Straddles(g, level, e) && OnBorder(g, e) && PointKey(CrossingPoint(g, level, e)) == k :: e
  }

  lemma InBorderCrossings(g: Grid, level: real, k: Key, e: Edge)
    requires WellFormed(g)
    ensures e in BorderCrossings(g, level, k) <==> Straddles(g, level, e) && OnBorder(g, e) && Keyed(g, level, e, k)
  {
    assert e in {Along(e.row, e.col), Up(e.row, e.col)};
  }

  lemma AtMostTwoCells(g: Grid, e: Edge)
    ensures CellsBeside(g, e) <= 2
  {}

  lemma OddMeansBorder(g: Grid, level: real, cs: seq<Crossing>, k: Key, e: Edge)
    requires WellFormed(g)
    requires Uses(cs, e) == if Straddles(g, level, e) then CellsBeside(g, e) else 0
    ensures e in OddEdges(g, level, cs, k) <==> e in BorderCrossings(g, level, k)
  {
    OddEdgesMeaning(g, level, cs, k, e);
    InBorderCrossings(g, level, k, e);
    AtMostTwoCells(g, e);
  }

  lemma EvenDifference(a: nat, b: nat, half: int)
    requires a == b + 2 * half
    ensures a % 2 == b % 2
  {}

  /** A key's degree has the parity of the number of border crossings there. */
  lemma DegreeParity(g: Grid, level: real, segs: seq<Segment>, cs: seq<Crossing>, k: Key)
    requires WellFormed(g) && Located(g, level, segs, cs)
    requires forall e :: Uses(cs, e) == if Straddles(g, level, e) then CellsBeside(g, e) else 0
    ensures Degree(segs, k) % 2 == |BorderCrossings(g, level, k)| % 2
  {
    forall e
      ensures e in OddEdges(g, level, cs, k) <==> e in BorderCrossings(g, level, k)
    {
      OddMeansBorder(g, level, cs, k, e);
    }
    assert OddEdges(g, level, cs, k) == BorderCrossings(g, level, k);
    var half := DegreeFromEdges(g, level, segs, cs, k);
    EvenDifference(Degree(segs, k), |BorderCrossings(g, level, k)|, half);
  }

  /** In a grid that has cells, the border edges are those on the rim; every other edge has a cell on both sides. */
  lemma BorderIsRim(g: Grid, e: Edge)
    requires g.w >= 2 && g.h >= 2 && OnLattice(g, e)
    ensures CellsBeside(g, e) == 2 - Mark(OnBorder(g, e))
    ensures OnBorder(g, e) <==> if e.Along? then e.row == 0 || e.row == g.h - 1 else e.col == 0 || e.col == g.w - 1
  {}

  /** Every traced contour is closed or has both ends on border crossings: the number of open contours ending
      at a key is the parity of the number of border crossings there. */
  method TraceContours(g: Grid, level: real) returns (lines: seq<Polyline>)
    requires WellFormed(g)
    ensures exists segs, trails ::
              && Located(g, level, segs, AllCrossings(g, level))
              && Decomposes(segs, lines, trails) && AllStayNear(segs, lines, trails) && AllRunAlong(segs, lines, trails)
    ensures forall e :: Uses(AllCrossings(g, level), e) == if Straddles(g, level, e) then CellsBeside(g, e) else 0
    ensures forall c <- AllCrossings(g, level) :: exists row, col :: FromCell(g, level, c, row, col)
    ensures Separated(lines) && EndsApart(lines)
    ensures forall k :: OpenEnds(lines, k) == |BorderCrossings(g, level, k)| % 2
  {
    var segs := CollectSegments(g, level);
    lines := ChainSegments(segs);
    ghost var trails :|
      Decomposes(segs, lines, trails) && AllStayNear(segs, lines, trails) && AllRunAlong(segs, lines, trails);
    forall c <- AllCrossings(g, level) {
      EveryCrossingIsLocal(g, level, c);
    }
    forall k
      ensures OpenEnds(lines, k) == |BorderCrossings(g, level, k)| % 2
    {
      OpenEndsAreOddKeys(segs, lines, trails, k);
      DegreeParity(g, level, segs, AllCrossings(g, level), k);
    }
  }

  /** In particular, an open contour ends only where some border edge is crossed. */
  lemma OpenContourEndsAtBorder(g: Grid, level: real, lines: seq<Polyline>, i: nat, k: Key) returns (e: Edge)
    requires WellFormed(g) && Separated(lines) && i < |lines| && OpenEndAt(lines[i], k)
    requires OpenEnds(lines, k) == |BorderCrossings(g, level, k)| % 2
    ensures OnBorder(g, e) && Straddles(g, level, e)
    ensures var p, q, c := lines[i][0], lines[i][|lines[i]| - 1], CrossingPoint(g, level, e);
      !SameCell(p, q) && (SameCell(p, c) || SameCell(q, c))
  {
    CountsOpenEnd(lines, i, k);
    assert BorderCrossings(g, level, k) != {};
    e :| e in BorderCrossings(g, level, k);
    SameKeySameCell(lines[i][0], lines[i][|lines[i]| - 1]);
    SameKeySameCell(lines[i][0], CrossingPoint(g, level, e));
    SameKeySameCell(lines[i][|lines[i]| - 1], CrossingPoint(g, level, e));
  }

  lemma {:induction false} CountsOpenEnd(lines: seq<Polyline>, i: nat, k: Key)
    requires (forall j :: 0 <= j < |lines| ==> lines[j] != []) && i < |lines| && OpenEndAt(lines[i], k)
    ensures OpenEnds(lines, k) > 0
  {
    var n := |lines| - 1;
    if i < n {
      CountsOpenEnd(lines[..n], i, k);
    }
  }
}
