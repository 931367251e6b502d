/** Elevation grids: the data section of an ESRI ASCII grid (internal/maptool/dem.go) read into rows stored from
    south to north, and the terrain-RGB image made of them (internal/maptool/heightmap.go). */
module ElevationGrid {
  import opened Common

  /** A field of a line, by how it parses: TooLarge is a number beyond float32 but not beyond float64, Huge one beyond
      that as well, Text is no number at all. */
  datatype Field = Num(v: real) | NaN | TooLarge | Huge | Text

  type Line = seq<Field>

  /** A field's place in the file, as error messages give it. */
  datatype Place = Place(row: nat, col: nat)

  /** As a float32. */
  predicate Parses(f: Field) {
    f.Num? || f.NaN?
  }

  predicate IsFloat64(f: Field) {
    Parses(f) || f.TooLarge?
  }

  /** The height a field stands for: not-a-number and the no-data value become 0. */
  function Height(f: Field, noData: real): real {
    if f.Num? && f.v != noData then f.v else 0.0
  }

  function Concat(lines: seq<Line>): seq<Field> {
    if lines == [] then [] else Concat(lines[..|lines| - 1]) + lines[|lines| - 1]
  }

  /** The fields of the data section. The line that ended the header belongs to it if it starts with a float64. */
  function DataFields(pending: Line, lines: seq<Line>): seq<Field> {
    (if pending != [] && IsFloat64(pending[0]) then pending else []) + Concat(lines)
  }

  // ----- Row-major positions

  function At(cols: nat, row: nat, col: nat): nat {
    row * cols + col
  }

  lemma AtInBounds(cols: nat, rows: nat, row: nat, col: nat)
    requires row < rows && col < cols
    ensures At(cols, row, col) < cols * rows
  {
    assert (row + 1) * cols <= rows * cols;
  }

  lemma RowsOrdered(cols: nat, row: nat, row': nat)
    ensures row < row' ==> row * cols + cols <= row' * cols
  {
    if row < row' {
      assert (row + 1) * cols <= row' * cols;
    }
  }

  lemma AtInjective(cols: nat, row: nat, col: nat, row': nat, col': nat)
    requires col < cols && col' < cols && At(cols, row, col) == At(cols, row', col')
    ensures row == row' && col == col'
  {
    RowsOrdered(cols, row, row');
    RowsOrdered(cols, row', row);
  }

  // ----- A grid filled from fields

  function HeightAt(fields: seq<Field>, noData: real, k: nat): real {
    if k < |fields| then Height(fields[k], noData) else 0.0
  }

  ghost predicate CellFilled(data: seq<real>, cols: nat, rows: nat, fields: seq<Field>, noData: real,
                             row: nat, col: nat)
    requires |data| == cols * rows && row < rows && col < cols
  {
    AtInBounds(cols, rows, rows - 1 - row, col);
    data[At(cols, rows - 1 - row, col)] == HeightAt(fields, noData, At(cols, row, col))
  }

  /** The field at row and col of the file is stored rows from the other end; missing ones are 0. */
  ghost predicate Filled(data: seq<real>, cols: nat, rows: nat, fields: seq<Field>, noData: real) {
    && |data| == cols * rows
    && forall row: nat, col: nat | row < rows && col < cols :: CellFilled(data, cols, rows, fields, noData, row, col)
  }

  /** The k-th field of the file lands at row rows - 1 - k / cols and column k % cols; further fields land nowhere. */
  lemma FieldLands(data: seq<real>, cols: nat, rows: nat, fields: seq<Field>, noData: real, k: nat)
    requires Filled(data, cols, rows, fields, noData) && k < cols * rows
    ensures 0 <= (rows - 1 - k / cols) * cols + k % cols < |data|
    ensures data[(rows - 1 - k / cols) * cols + k % cols] == HeightAt(fields, noData, k)
  {
    var row, col := k / cols, k % cols;
    assert k == row * cols + col;
    assert row < rows by {
      RowsOrdered(cols, rows, row);
    }
    assert CellFilled(data, cols, rows, fields, noData, row, col);
    AtInBounds(cols, rows, rows - 1 - row, col);
  }

  /** The fields alone determine the grid: how they were split into lines does not matter. */
  lemma FieldsDetermineGrid(data: seq<real>, data': seq<real>, cols: nat, rows: nat, fields: seq<Field>, noData: real)
    requires Filled(data, cols, rows, fields, noData) && Filled(data', cols, rows, fields, noData)
    ensures data == data'
  {
    forall i | 0 <= i < |data|
      ensures data[i] == data'[i]
    {
      var fromSouth, col := i / cols, i % cols;
      assert i == At(cols, fromSouth, col);
      RowsOrdered(cols, rows, fromSouth);
      assert CellFilled(data, cols, rows, fields, noData, rows - 1 - fromSouth, col);
      assert CellFilled(data', cols, rows, fields, noData, rows - 1 - fromSouth, col);
    }
  }

  /** Storing the next field keeps the grid filled. */
  lemma StoreFills(data: seq<real>, cols: nat, rows: nat, fields: seq<Field>, noData: real,
                   row: nat, col: nat, f: Field)
    requires Filled(data, cols, rows, fields, noData)
    requires row < rows && col < cols && |fields| == At(cols, row, col)
    ensures At(cols, rows - 1 - row, col) < |data|
    ensures Filled(data[At(cols, rows - 1 - row, col) := Height(f, noData)], cols, rows, fields + [f], noData)
  {
    AtInBounds(cols, rows, rows - 1 - row, col);
    var i := At(cols, rows - 1 - row, col);
    var data' := data[i := Height(f, noData)];
    forall r: nat, c: nat | r < rows && c < cols
      ensures CellFilled(data', cols, rows, fields + [f], noData, r, c)
    {
      assert CellFilled(data, cols, rows, fields, noData, r, c);
      AtInBounds(cols, rows, rows - 1 - r, c);
      if r != row || c != col {
        if At(cols, r, c) == |fields| {
          AtInjective(cols, r, c, row, col);
        }
        if At(cols, rows - 1 - r, c) == i {
          AtInjective(cols, rows - 1 - r, c, rows - 1 - row, col);
        }
      }
    }
  }

  /** Fields beyond the last cell change nothing. */
  lemma ExtraFieldsIgnored(data: seq<real>, cols: nat, rows: nat, fields: seq<Field>, noData: real, extra: seq<Field>)
    requires Filled(data, cols, rows, fields, noData) && cols * rows <= |fields|
    ensures Filled(data, cols, rows, fields + extra, noData)
  {
    forall r: nat, c: nat | r < rows && c < cols
      ensures CellFilled(data, cols, rows, fields + extra, noData, r, c)
    {
      assert CellFilled(data, cols, rows, fields, noData, r, c);
      AtInBounds(cols, rows, r, c);
    }
  }

  /** Where the error is: the first field, among those with a cell, that does not parse. */
  ghost predicate ErrorAt(cols: nat, rows: nat, fields: seq<Field>, p: Place) {
    && p.row < rows && p.col < cols
    && var k := At(cols, p.row, p.col);
       k < |fields| && !Parses(fields[k]) && forall j | 0 <= j < k :: Parses(fields[j])
  }

  ghost predicate AllParse(cols: nat, rows: nat, fields: seq<Field>) {
    forall k | 0 <= k < |fields| && k < cols * rows :: Parses(fields[k])
  }

  lemma ErrorStays(cols: nat, rows: nat, fields: seq<Field>, p: Place, more: seq<Field>)
    requires ErrorAt(cols, rows, fields, p)
    ensures ErrorAt(cols, rows, fields + more, p)
  {
    var k := At(cols, p.row, p.col);
    assert forall j | 0 <= j <= k :: (fields + more)[j] == fields[j];
  }

  /** Reading fails at a field exactly if not all fields that have a cell parse. */
  lemma ErrorMeansUnparsed(cols: nat, rows: nat, fields: seq<Field>, p: Place)
    requires ErrorAt(cols, rows, fields, p)
    ensures !AllParse(cols, rows, fields)
  {
    AtInBounds(cols, rows, p.row, p.col);
  }

  class Grid {
    const cols: nat
    const rows: nat
    const data: array<real>

    // The cell to be filled next; row is -1 once the grid is full.
    var row: int
    var col: nat

    ghost predicate Valid()
      reads this
    {
      && data.Length == cols * rows
      && -1 <= row < rows && col < cols
      && (row == -1 ==> col == 0)
    }

    /** The number of cells filled. */
    ghost function Count(): nat
      requires Valid()
      reads this
    {
      At(cols, rows - 1 - row, col)
    }

    /** The grid holds fields, and stands after them or is full. */
    ghost predicate Holds(fields: seq<Field>, noData: real)
      reads this, data
    {
      && Valid()
      && Filled(data[..], cols, rows, fields, noData)
      && AllParse(cols, rows, fields)
      && (row >= 0 ==> Count() == |fields|)
      && (row < 0 ==> cols * rows <= |fields|)
    }

    constructor (cols: nat, rows: nat, noData: real)
      requires cols > 0 && rows > 0
      ensures this.cols == cols && this.rows == rows && fresh(data)
      ensures Holds([], noData)
    {
      this.cols, this.rows := cols, rows;
      data := new real[cols * rows](_ => 0.0);
      row, col := rows - 1, 0;
      new;
      forall r: nat, c: nat | r < rows && c < cols
        ensures CellFilled(data[..], cols, rows, [], noData, r, c)
      {
        AtInBounds(cols, rows, rows - 1 - r, c);
      }
    }

    /** Stores a field that parses and moves on. */
    method Store(f: Field, noData: real, ghost fields: seq<Field>)
      requires Holds(fields, noData) && row >= 0 && Parses(f)
      modifies this`row, this`col, data
      ensures Holds(fields + [f], noData)
    {
      StoreFills(data[..], cols, rows, fields, noData, rows - 1 - row, col, f);
      ghost var was := data[..];
      data[row * cols + col] := Height(f, noData);
      assert data[..] == was[At(cols, row, col) := Height(f, noData)];
      assert At(cols, rows - 1 - row, col + 1) == |fields + [f]|;
      col := col + 1;
      if col >= cols {
        assert At(cols, rows - row, 0) == At(cols, rows - 1 - row, cols);
        col := 0;
        row := row - 1;
      }
    }

    method ProcessLine(line: Line, noData: real, ghost fields: seq<Field>) returns (error: Option<Place>)
      requires Holds(fields, noData)
      modifies this`row, this`col, data
      ensures error.None? ==> Holds(fields + line, noData)
      ensures error.Some? ==> ErrorAt(cols, rows, fields + line, error.value)
    {
      assert fields + line[..0] == fields;
      for i := 0 to |line|
        invariant Holds(fields + line[..i], noData)
      {
        assert fields + line == fields + line[..i] + line[i..];
        if row < 0 {
          ExtraFieldsIgnored(data[..], cols, rows, fields + line[..i], noData, line[i..]);
          return None;
        }
        assert fields + line[..i + 1] == fields + line[..i] + [line[i]];
        if !Parses(line[i]) {
          AtInBounds(cols, rows, rows - 1 - row, col);
          return Some(Place(rows - 1 - row, col));
        }
        Store(line[i], noData, fields + line[..i]);
      }
      assert line[..|line|] == line;
      error := None;
    }

    /** Reads the data section: every field with a cell is stored, however the fields are split into lines. */
    method ReadData(pending: Line, lines: seq<Line>, noData: real) returns (error: Option<Place>)
      requires Holds([], noData)
      modifies this`row, this`col, data
      ensures error.None? ==> AllParse(cols, rows, DataFields(pending, lines))
      ensures error.None? ==> Filled(data[..], cols, rows, DataFields(pending, lines), noData)
      ensures error.Some? ==> ErrorAt(cols, rows, DataFields(pending, lines), error.value)
    {
      ghost var first: Line := [];
      if pending != [] && IsFloat64(pending[0]) {
        first := pending;
        error := ProcessLine(pending, noData, []);
        assert [] + pending == pending;
        if error.Some? {
          ErrorStays(cols, rows, pending, error.value, Concat(lines));
          return;
        }
      }
      error := ReadLines(lines, noData, first);
    }

    method ReadLines(lines: seq<Line>, noData: real, ghost first: seq<Field>) returns (error: Option<Place>)
      requires Holds(first, noData)
      modifies this`row, this`col, data
      ensures error.None? ==> Holds(first + Concat(lines), noData)
      ensures error.Some? ==> ErrorAt(cols, rows, first + Concat(lines), error.value)
    {
      assert first + Concat(lines[..0]) == first;
      for i := 0 to |lines|
        invariant Holds(first + Concat(lines[..i]), noData)
      {
        error := ProcessLine(lines[i], noData, first + Concat(lines[..i]));
        assert lines[..i + 1][..i] == lines[..i];
        assert first + Concat(lines[..i]) + lines[i] == first + Concat(lines[..i + 1]);
        if error.Some? {
          ConcatSplits(lines, i + 1);
          assert first + Concat(lines[..i + 1]) + Concat(lines[i + 1..]) == first + Concat(lines);
          ErrorStays(cols, rows, first + Concat(lines[..i + 1]), error.value, Concat(lines[i + 1..]));
          return;
        }
      }
      assert lines[..|lines|] == lines;
      error := None;
    }

    /** The terrain-RGB image of the grid, north up. */
    method EncodeTerrainRGB() returns (image: array2<Pixel>)
      requires data.Length == cols * rows
      ensures fresh(image) && image.Length0 == cols && image.Length1 == rows
      ensures forall c, r | 0 <= c < cols && 0 <= r < rows :: ShowsCell(image[c, r], data[..], cols, rows, c, r)
    {
      image := new Pixel[cols, rows]((_, _) => Pixel(0, 0, 0, 0));
      for r := 0 to rows
        invariant forall c, r' | 0 <= c < cols && 0 <= r' < r :: ShowsCell(image[c, r'], data[..], cols, rows, c, r')
      {
        for c := 0 to cols
          invariant forall c', r' | 0 <= c' < cols && 0 <= r' < r ::
                      ShowsCell(image[c', r'], data[..], cols, rows, c', r')
          invariant forall c' | 0 <= c' < c :: ShowsCell(image[c', r], data[..], cols, rows, c', r)
        {
          AtInBounds(cols, rows, rows - 1 - r, c);
          image[c, r] := Encode(data[At(cols, rows - 1 - r, c)]);
        }
      }
    }
  }

  lemma {:induction false} ConcatSplits(lines: seq<Line>, i: nat)
    requires i <= |lines|
    ensures Concat(lines) == Concat(lines[..i]) + Concat(lines[i..])
    decreases |lines|
  {
    if i == |lines| {
      assert lines[..i] == lines;
    } else {
      var n := |lines| - 1;
      ConcatSplits(lines[..n], i);
      assert lines[..n][..i] == lines[..i] && lines[..n][i..] == lines[i..][..n - i];
      assert lines[i..][n - i] == lines[n];
    }
  }

  // ----- The line that ended the header

  lemma ConcatFirst(pending: Line, lines: seq<Line>)
    ensures Concat([pending] + lines) == pending + Concat(lines)
  {
    ConcatSplits([pending] + lines, 1);
    assert ([pending] + lines)[..1] == [pending] && ([pending] + lines)[1..] == lines;
    assert [pending][..0] == [];
  }

  /** All fields after the header are read exactly if the first line is empty or starts with a float64; otherwise that
      line is dropped. */
  lemma AllLinesReadExactly(pending: Line, lines: seq<Line>)
    ensures DataFields(pending, lines) == Concat([pending] + lines)
        <==> pending == [] || pending[0] !in {Huge, Text}
  {
    ConcatFirst(pending, lines);
    if pending != [] && !IsFloat64(pending[0]) {
      assert |DataFields(pending, lines)| < |Concat([pending] + lines)|;
    }
  }

  /** A dropped line is never reported, and every later field takes the place of one that many fields earlier. */
  lemma DroppedLineShifts(pending: Line, lines: seq<Line>, k: nat)
    requires pending != [] && pending[0] in {Huge, Text} && k < |DataFields(pending, lines)|
    ensures |pending| + k < |Concat([pending] + lines)|
    ensures DataFields(pending, lines)[k] == Concat([pending] + lines)[|pending| + k]
  {
    ConcatFirst(pending, lines);
  }

  /** The same on any later line, as long as the line still has a cell, is an error. */
  lemma LaterLineReported(cols: nat, rows: nat, pending: Line, lines: seq<Line>, i: nat)
    requires i < |lines| && lines[i] != [] && lines[i][0] in {Huge, Text}
    requires |DataFields(pending, lines[..i])| < cols * rows
    ensures !AllParse(cols, rows, DataFields(pending, lines))
  {
    var k := |DataFields(pending, lines[..i])|;
    ConcatSplits(lines, i);
    ConcatFirst(lines[i], lines[i + 1..]);
    assert lines[i..] == [lines[i]] + lines[i + 1..];
    assert DataFields(pending, lines)[k] == lines[i][0];
  }

  /** A first line is dropped without an error, and the two numbers after it fill the grid in its place; as a later
      line, with cells left for it, the same line is an error. Its first field may be a word, or a number as large as
      1e400. */
  lemma DroppedLine(first: Field)
    requires first == Text || first == Huge
    ensures var dropped, numbers := [first, Num(1.0)], [Num(2.0), Num(3.0)];
      && DataFields(dropped, [numbers]) == numbers && AllParse(2, 1, DataFields(dropped, [numbers]))
      && !AllParse(4, 1, DataFields(numbers, [dropped]))
  {
    var dropped, numbers := [first, Num(1.0)], [Num(2.0), Num(3.0)];
    ConcatFirst(numbers, []);
    assert [numbers] + [] == [numbers];
    assert DataFields(numbers, [dropped][..0]) == numbers;
    LaterLineReported(4, 1, numbers, [dropped], 0);
  }

  // ----- Terrain-RGB

  datatype Pixel = Pixel(r: nat, g: nat, b: nat, a: nat)

  /** int(r): tenths of metres above -10000 m, as three bytes; negative ones become 0. */
  function Encode(height: real): Pixel {
    var val := Truncate((height + 10000.0) * 10.0);
    var v: nat := if val < 0 then 0 else val;
    Pixel(v / 65536 % 256, v / 256 % 256, v % 256, 255)
  }

  function Decode(p: Pixel): real {
    -10000.0 + 0.1 * (65536 * p.r + 256 * p.g + p.b) as real
  }

  ghost predicate ShowsCell(p: Pixel, data: seq<real>, cols: nat, rows: nat, col: nat, row: nat)
    requires |data| == cols * rows && row < rows && col < cols
  {
    AtInBounds(cols, rows, rows - 1 - row, col);
    p == Encode(data[At(cols, rows - 1 - row, col)])
  }

  /** Three bytes hold a value modulo 2^24. */
  lemma ThreeBytes(v: nat)
    ensures 65536 * (v / 65536 % 256) + 256 * (v / 256 % 256) + v % 256 == v % 0x100_0000
  {
    var a, g, b := v / 65536, v / 256 % 256, v % 256;
    assert v / 256 == 256 * a + g;
    var n, r := a / 256, a % 256;
    assert v == 0x100_0000 * n + (65536 * r + 256 * g + b);
    assert 0 <= 65536 * r + 256 * g + b < 0x100_0000;
  }

  /** Decoding gives a height back to within 0.1 m below exactly for heights that 24 bits can hold. */
  lemma EncodingPrecision(height: real)
    ensures var p := Encode(height);
      var decoded := -10000.0 + 0.1 * (65536 * p.r + 256 * p.g + p.b) as real;
      && p.r < 256 && p.g < 256 && p.b < 256 && p.a == 255
      && (decoded <= height < decoded + 0.1 <==> -10000.0 <= height < -10000.0 + 1677721.6)
  {
    var x := (height + 10000.0) * 10.0;
    var v: nat := if Truncate(x) < 0 then 0 else Truncate(x);
    var w := v % 0x100_0000;
    assert Decode(Encode(height)) == -10000.0 + 0.1 * w as real by {
      ThreeBytes(v);
    }
    WithinTenth(x, v, w);
  }

  /** What is lower than 24 bits can hold is encoded as -10000 m. */
  lemma TooLowIsLowest(height: real)
    requires height < -10000.0
    ensures Encode(height) == Pixel(0, 0, 0, 255)
  {
    assert (height + 10000.0) * 10.0 < 0.0;
  }

  /** A truncated value kept modulo 2^24 is within 1 below the value exactly if it is not negative and fits. */
  lemma WithinTenth(x: real, v: nat, w: nat)
    requires v == if Truncate(x) < 0 then 0 else Truncate(x)
    requires w == v % 0x100_0000
    ensures w as real <= x < w as real + 1.0 <==> 0.0 <= x < 16777216.0
  {
    if x >= 0.0 && v >= 0x100_0000 {
      assert w + 1 <= v;
    }
  }

  /** The image of the fields of a file: the pixel at col and row encodes field row * cols + col. */
  lemma PixelShowsField(p: Pixel, data: seq<real>, cols: nat, rows: nat, fields: seq<Field>, noData: real,
                        col: nat, row: nat)
    requires Filled(data, cols, rows, fields, noData) && row < rows && col < cols
    requires ShowsCell(p, data, cols, rows, col, row)
    ensures p == Encode(HeightAt(fields, noData, row * cols + col))
  {
    assert CellFilled(data, cols, rows, fields, noData, row, col);
  }

  /** A missing field, one that is no number and the no-data value are encoded as 0 m, any other as its own height. */
  lemma FieldEncoded(fields: seq<Field>, noData: real, k: nat)
    ensures k >= |fields| || fields[k].NaN? || fields[k] == Num(noData) ==>
              Encode(HeightAt(fields, noData, k)) == Pixel(1, 134, 160, 255)
    ensures k < |fields| && fields[k].Num? && fields[k].v != noData ==> HeightAt(fields, noData, k) == fields[k].v
  {
    assert Encode(0.0) == Pixel(1, 134, 160, 255);
  }

  /** The heightmap stage: a file read and encoded. */
  method Heightmap(cols: nat, rows: nat, noData: real, pending: Line, lines: seq<Line>)
    returns (result: Result<array2<Pixel>, Place>)
    requires cols > 0 && rows > 0
    ensures result.Ok? <==> AllParse(cols, rows, DataFields(pending, lines))
    ensures result.Ok? <==> forall k :: 0 <= k < |DataFields(pending, lines)| && k < cols * rows ==>
                              DataFields(pending, lines)[k] !in {TooLarge, Huge, Text}
    ensures result.Ok? ==>
      var image := result.value;
      && image.Length0 == cols && image.Length1 == rows
      && forall col, row | 0 <= col < cols && 0 <= row < rows ::
           image[col, row] == Encode(HeightAt(DataFields(pending, lines), noData, row * cols + col))
    ensures result.Ok? ==>
      var image, fields := result.value, DataFields(pending, lines);
      forall col, row, k | 0 <= col < cols && 0 <= row < rows && k == row * cols + col ::
        image[col, row] == if k >= |fields| || fields[k].NaN? || fields[k] == Num(noData) then Pixel(1, 134, 160, 255)
                           else if fields[k].Num? then Encode(fields[k].v) else image[col, row]
    ensures result.Err? ==> ErrorAt(cols, rows, DataFields(pending, lines), result.error)
  {
    var grid := new Grid(cols, rows, noData);
    var error := grid.ReadData(pending, lines, noData);
    if error.Some? {
      ErrorMeansUnparsed(cols, rows, DataFields(pending, lines), error.value);
      return Err(error.value);
    }
    var image := grid.EncodeTerrainRGB();
    forall col, row | 0 <= col < cols && 0 <= row < rows
      ensures image[col, row] == Encode(HeightAt(DataFields(pending, lines), noData, row * cols + col))
    {
      PixelShowsField(image[col, row], grid.data[..], cols, rows, DataFields(pending, lines), noData, col, row);
    }
    ghost var fields := DataFields(pending, lines);
    forall col, row, k | 0 <= col < cols && 0 <= row < rows && k == row * cols + col
      ensures image[col, row] == if k >= |fields| || fields[k].NaN? || fields[k] == Num(noData)
                                 then Pixel(1, 134, 160, 255)
                                 else if fields[k].Num? then Encode(fields[k].v) else image[col, row]
    {
      FieldEncoded(fields, noData, k);
    }
    result := Ok(image);
  }
}
