/**
 * The text-map compiler (mapreader.go): a character map is split into rows,
 * padded to a rectangle and flattened; each cell is then classified, rooms
 * are built for room symbols and `|`/`-` symbols become links between them.
 */

/** A map read from text: `area` holds one one-character symbol per cell. */
datatype TextMap = TextMap(width: int, height: int, area: seq<string>)

datatype Coordinates = Coordinates(x: int, y: int)

// ---------------------------------------------------------------------------
// Row splitting, padding and flattening
// ---------------------------------------------------------------------------

/**
 * The rows `readMap` collects when the input starts while `row` is the row
 * being read: every '\n' closes the current row and so does the end of the
 * input. Each character read becomes a one-character symbol.
 */
function RowsFrom(row: seq<string>, s: seq<char>): seq<seq<string>>
  decreases |s|
{
  if s == [] then [row]
  else if s[0] == '\n' then [row] + RowsFrom([], s[1..])
  else RowsFrom(row + [[s[0]]], s[1..])
}

function Rows(s: seq<char>): seq<seq<string>>
{
  RowsFrom([], s)
}

function NewlineCount(s: seq<char>): nat
{
  if s == [] then 0 else (if s[0] == '\n' then 1 else 0) + NewlineCount(s[1..])
}

/** The input as one-character symbols. */
function Symbols(s: seq<char>): (r: seq<string>)
  ensures |r| == |s|
{
  if s == [] then [] else [[s[0]]] + Symbols(s[1..])
}

/** Rows glued back together with a "\n" symbol between consecutive rows. */
function JoinRows(rows: seq<seq<string>>): seq<string>
{
  if rows == [] then []
  else if |rows| == 1 then rows[0]
  else rows[0] + ["\n"] + JoinRows(rows[1..])
}

/** There is one row more than there are newlines, the last possibly empty. */
lemma {:induction false} RowsFromCount(row: seq<string>, s: seq<char>)
  ensures |RowsFrom(row, s)| == NewlineCount(s) + 1
  decreases |s|
{
  if s != [] {
    if s[0] == '\n' {
      RowsFromCount([], s[1..]);
    } else {
      RowsFromCount(row + [[s[0]]], s[1..]);
    }
  }
}

/** Splitting on '\n' loses nothing: joining the rows gives the input back. */
lemma {:induction false} RowsFromRejoin(row: seq<string>, s: seq<char>)
  ensures JoinRows(RowsFrom(row, s)) == row + Symbols(s)
  decreases |s|
{
  if s != [] {
    if s[0] == '\n' {
      RowsFromRejoin([], s[1..]);
      var rest := RowsFrom([], s[1..]);
      assert |rest| >= 1 by { RowsFromCount([], s[1..]); }
      assert [row] + rest == [row] + rest[..];
      calc {
        JoinRows([row] + rest);
        row + ["\n"] + JoinRows(([row] + rest)[1..]);
        { assert ([row] + rest)[1..] == rest; }
        row + ["\n"] + Symbols(s[1..]);
      }
    } else {
      RowsFromRejoin(row + [[s[0]]], s[1..]);
    }
  }
}

lemma RowsRejoin(s: seq<char>)
  ensures JoinRows(Rows(s)) == Symbols(s)
  ensures |Rows(s)| == NewlineCount(s) + 1
{
  RowsFromRejoin([], s);
  RowsFromCount([], s);
}

/** The length of the longest row (0 for no rows). */
function MaxLen(rows: seq<seq<string>>): (m: nat)
  ensures forall i :: 0 <= i < |rows| ==> |rows[i]| <= m
  ensures rows != [] ==> exists i :: 0 <= i < |rows| && |rows[i]| == m
{
  if rows == [] then 0
  else
    var m0 := MaxLen(rows[..|rows| - 1]);
    var last := |rows[|rows| - 1]|;
    assert forall i :: 0 <= i < |rows| - 1 ==> rows[i] == rows[..|rows| - 1][i];
    if last > m0 then last else m0
}

/** Appending a row raises the longest length to that row's length at most. */
lemma MaxLenSnoc(rows: seq<seq<string>>, row: seq<string>)
  ensures MaxLen(rows + [row]) == if |row| > MaxLen(rows) then |row| else MaxLen(rows)
{
  assert (rows + [row])[..|rows|] == rows;
}

/** Extends a row with "" symbols to at least `width` cells. */
function PadStringArray(width: int, row: seq<string>): (output: seq<string>)
  ensures |output| == if |row| < width then width else |row|
  ensures output[..|row|] == row
  ensures forall i :: |row| <= i < |output| ==> output[i] == ""
{
  if |row| < width then row + seq(width - |row|, _ => "") else row
}

/** Pads every row, keeping the row count and order. */
method PadArrayStringArray(width: int, arrays: seq<seq<string>>) returns (output: seq<seq<string>>)
  ensures |output| == |arrays|
  ensures forall i :: 0 <= i < |arrays| ==> output[i] == PadStringArray(width, arrays[i])
{
  output := [];
  for i := 0 to |arrays|
    invariant |output| == i
    invariant forall k :: 0 <= k < i ==> output[k] == PadStringArray(width, arrays[k])
  {
    output := output + [PadStringArray(width, arrays[i])];
  }
}

/** In-order concatenation of the rows. */
function Flatten(rows: seq<seq<string>>): seq<string>
{
  if rows == [] then [] else Flatten(rows[..|rows| - 1]) + rows[|rows| - 1]
}

function TotalLength(rows: seq<seq<string>>): nat
{
  if rows == [] then 0 else TotalLength(rows[..|rows| - 1]) + |rows[|rows| - 1]|
}

method CombineArrays(arrays: seq<seq<string>>) returns (output: seq<string>)
  ensures output == Flatten(arrays)
{
  output := [];
  for i := 0 to |arrays|
    invariant output == Flatten(arrays[..i])
  {
    assert arrays[..i + 1][..i] == arrays[..i];
    output := output + arrays[i];
  }
  assert arrays[..|arrays|] == arrays;
}

lemma {:induction false} FlattenLength(rows: seq<seq<string>>)
  ensures |Flatten(rows)| == TotalLength(rows)
{
  if rows != [] {
    FlattenLength(rows[..|rows| - 1]);
  }
}

/** Multiplying by a nonnegative width keeps the order of the factors. */
lemma MulMono(a: int, b: int, width: int)
  requires a <= b && width >= 0
  ensures a * width <= b * width
{
  assert b * width - a * width == (b - a) * width;
}

/** A cell of row y lies before the end of the first n > y rows. */
lemma CellBeforeRows(x: int, y: int, n: int, width: int)
  requires 0 <= x < width && 0 <= y < n
  ensures 0 <= x + y * width < n * width
{
  MulMono(0, y, width);
  MulMono(y + 1, n, width);
  assert (y + 1) * width == y * width + width;
}

/** Flattening rows that all have `width` cells gives width*|rows| cells. */
lemma {:induction false} FlattenRectLength(rows: seq<seq<string>>, width: nat)
  requires forall i :: 0 <= i < |rows| ==> |rows[i]| == width
  ensures |Flatten(rows)| == width * |rows|
{
  if rows != [] {
    FlattenRectLength(rows[..|rows| - 1], width);
    assert width * |rows| == width * (|rows| - 1) + width;
  }
}

/**
 * Flattening rows that all have `width` cells puts the cell in column x of
 * row y at index x + y*width.
 */
lemma {:induction false} FlattenRectAt(rows: seq<seq<string>>, width: nat, x: int, y: int)
  requires forall i :: 0 <= i < |rows| ==> |rows[i]| == width
  requires 0 <= x < width && 0 <= y < |rows|
  ensures 0 <= GetIndex(Coordinates(x, y), width) < |Flatten(rows)|
  ensures Flatten(rows)[GetIndex(Coordinates(x, y), width)] == rows[y][x]
{
  var n := |rows| - 1;
  var init := rows[..n];
  FlattenRectLength(rows, width);
  FlattenRectLength(init, width);
  CellBeforeRows(x, y, |rows|, width);
  assert Flatten(rows) == Flatten(init) + rows[n];
  if y < n {
    CellBeforeRows(x, y, n, width);
    FlattenRectAt(init, width, x, y);
    assert init[y] == rows[y];
  } else {
    assert x + y * width == width * n + x;
  }
}

lemma FlattenRect(rows: seq<seq<string>>, width: nat)
  requires forall i :: 0 <= i < |rows| ==> |rows[i]| == width
  ensures |Flatten(rows)| == width * |rows|
  ensures forall x, y :: 0 <= x < width && 0 <= y < |rows| ==>
            0 <= GetIndex(Coordinates(x, y), width) < |Flatten(rows)| &&
            Flatten(rows)[GetIndex(Coordinates(x, y), width)] == rows[y][x]
{
  FlattenRectLength(rows, width);
  forall x, y | 0 <= x < width && 0 <= y < |rows|
    ensures 0 <= GetIndex(Coordinates(x, y), width) < |Flatten(rows)|
    ensures Flatten(rows)[GetIndex(Coordinates(x, y), width)] == rows[y][x]
  {
    FlattenRectAt(rows, width, x, y);
  }
}

/** Reading one character either closes the current row or extends it. */
lemma RowsFromStep(rawMap: seq<seq<string>>, row: seq<string>, s: seq<char>)
  requires s != []
  ensures s[0] == '\n' ==> rawMap + RowsFrom(row, s) == (rawMap + [row]) + RowsFrom([], s[1..])
  ensures s[0] != '\n' ==> rawMap + RowsFrom(row, s) == rawMap + RowsFrom(row + [[s[0]]], s[1..])
{
}

/**
 * The reading loop of `readMap` over an in-memory character sequence: one
 * character at a time, a '\n' or the end of input closes the current row, and the
 * width is the longest row seen.
 */
method SplitRows(input: seq<char>) returns (rawMap: seq<seq<string>>, width: nat)
  ensures rawMap == Rows(input) && width == MaxLen(rawMap)
{
  rawMap := [];
  var row: seq<string> := [];
  width := 0;
  var pos := 0;
  while true
    invariant 0 <= pos <= |input|
    invariant rawMap + RowsFrom(row, input[pos..]) == Rows(input)
    invariant width == MaxLen(rawMap + [row])
    decreases |input| - pos
  {
    if pos == |input| {
      // the read fails at the end of input: the row is closed and reading stops
      rawMap := rawMap + [row];
      break;
    }
    var c := input[pos];
    RowsFromStep(rawMap, row, input[pos..]);
    assert input[pos..][1..] == input[pos + 1..];
    pos := pos + 1;
    MaxLenSnoc(rawMap, row);
    if c == '\n' {
      rawMap := rawMap + [row];
      row := [];
      MaxLenSnoc(rawMap, row);
    } else {
      MaxLenSnoc(rawMap, row + [[c]]);
      row := row + [[c]];
      if |row| > width {
        width := |row|;
      }
    }
  }
}

/**
 * `readMap` over an in-memory character sequence: the input is split into
 * rows, the height is the number of rows, and the rows are padded to the
 * longest row's length and flattened.
 */
method ReadMap(input: seq<char>) returns (m: TextMap)
  ensures m.height == NewlineCount(input) + 1 == |Rows(input)|
  ensures m.width == MaxLen(Rows(input))
  ensures |m.area| == m.width * m.height
  ensures forall x, y :: 0 <= x < m.width && 0 <= y < m.height ==>
            var row := Rows(input)[y];
            0 <= GetIndex(Coordinates(x, y), m.width) < |m.area| &&
            m.area[GetIndex(Coordinates(x, y), m.width)] == if x < |row| then row[x] else ""
{
  var rawMap, width := SplitRows(input);
  RowsFromCount([], input);
  var padded := PadArrayStringArray(width, rawMap);
  var area := CombineArrays(padded);
  PaddedArea(rawMap, width, padded);
  m := TextMap(width, |rawMap|, area);
}

/**
 * Padding rows to their longest length and flattening them gives a
 * width*|rows| area whose cell (x, y) is row y's symbol x, or "" past the
 * row's end.
 */
lemma PaddedArea(rows: seq<seq<string>>, width: nat, padded: seq<seq<string>>)
  requires width == MaxLen(rows) && |padded| == |rows|
  requires forall i :: 0 <= i < |rows| ==> padded[i] == PadStringArray(width, rows[i])
  ensures |Flatten(padded)| == width * |rows|
  ensures forall x, y :: 0 <= x < width && 0 <= y < |rows| ==>
            0 <= GetIndex(Coordinates(x, y), width) < |Flatten(padded)| &&
            Flatten(padded)[GetIndex(Coordinates(x, y), width)] == if x < |rows[y]| then rows[y][x] else ""
{
  FlattenRect(padded, width);
}

// ---------------------------------------------------------------------------
// Grid arithmetic
// ---------------------------------------------------------------------------

/**
 * Go's integer division, which truncates toward zero: what is left over
 * takes the sign of the dividend and is smaller than the divisor.
 */
function GoQuo(a: int, b: int): (q: int)
  requires b > 0
  ensures a >= 0 ==> 0 <= q && 0 <= a - q * b < b
  ensures a < 0 ==> q <= 0 && -b < a - q * b <= 0
{
  if a >= 0 then a / b else -((-a) / b)
}

/** Go's remainder, which takes the sign of the dividend. */
function GoRem(a: int, b: int): (r: int)
  requires b > 0
  ensures a >= 0 ==> 0 <= r < b
  ensures a < 0 ==> -b < r <= 0
{
  if a >= 0 then a % b else -((-a) % b)
}

/** `getCoords`: a non-negative index lies in a column inside the width, on a row at or below the first. */
function GetCoords(index: int, width: int, height: int): (c: Coordinates)
  requires width > 0
  ensures index >= 0 ==> 0 <= c.x < width && c.y >= 0
{
  Coordinates(GoRem(index, width), GoQuo(index, width))
}

/** `getIndex`, row-major: a cell inside the width on row y lies among row y's width indices. */
function GetIndex(coords: Coordinates, width: int): (i: int)
  ensures 0 <= coords.x < width ==> coords.y * width <= i < coords.y * width + width
{
  coords.x + coords.y * width
}

/** Converting an index to coordinates and back gives the index, for every index. */
lemma IndexOfCoords(index: int, width: int, height: int)
  requires width > 0
  ensures GetIndex(GetCoords(index, width, height), width) == index
{
  if index < 0 {
    var a := -index;
    assert a == (a / width) * width + a % width;
  }
}

lemma DivModUnique(a: int, width: int, q: int, r: int)
  requires width > 0 && 0 <= r < width && a == q * width + r
  ensures a / width == q && a % width == r
{
  var q', r' := a / width, a % width;
  assert a == q' * width + r';
  assert (q' - q) * width == r - r' by {
    assert (q' - q) * width == q' * width - q * width;
  }
  if q' > q {
    MulMono(1, q' - q, width);
  } else if q' < q {
    MulMono(1, q - q', width);
  }
}

/**
 * Converting a cell inside the grid's columns, on a row at or below the
 * first, to an index and back gives the cell. (Under Go's truncating
 * division a negative row with a positive column does not round-trip.)
 */
lemma CoordsOfIndex(coords: Coordinates, width: int, height: int)
  requires width > 0 && 0 <= coords.x < width && coords.y >= 0
  ensures GetCoords(GetIndex(coords, width), width, height) == coords
{
  var a := GetIndex(coords, width);
  assert a >= 0 by {
    assert coords.y * width >= 0;
  }
  DivModUnique(a, width, coords.y, coords.x);
}

/** The coordinates of an index into a width*height area lie inside the grid. */
lemma CoordsInGrid(index: int, width: int, height: int)
  requires width > 0 && 0 <= index < width * height
  ensures var c := GetCoords(index, width, height); 0 <= c.x < width && 0 <= c.y < height
{
  var q, r := index / width, index % width;
  assert GetCoords(index, width, height) == Coordinates(r, q);
  assert index == q * width + r;
  if q < 0 {
    MulMono(q, -1, width);
  }
  if q >= height {
    MulMono(height, q, width);
  }
}

// ---------------------------------------------------------------------------
// Symbol classes
// ---------------------------------------------------------------------------

/** Empty cells: the padding "" and a space. */
predicate IsEmpty(symbol: string): (blank: bool)
  ensures blank ==> |symbol| <= 1
{
  symbol == "" || symbol == " "
}

/** Link cells: `|` joins vertically, `-` horizontally. */
predicate IsExit(symbol: string): (link: bool)
  ensures link ==> |symbol| == 1 && !IsEmpty(symbol)
{
  symbol == "|" || symbol == "-"
}

/** Every other symbol names a room. */
predicate IsRoom(symbol: string): (room: bool)
  ensures room <==> symbol !in {"", " ", "|", "-"}
{
  !IsEmpty(symbol) && !IsExit(symbol)
}

/** Every symbol is in exactly one of the three classes. */
lemma SymbolClassesPartition(symbol: string)
  ensures IsEmpty(symbol) || IsExit(symbol) || IsRoom(symbol)
  ensures !(IsEmpty(symbol) && IsExit(symbol))
  ensures !(IsEmpty(symbol) && IsRoom(symbol))
  ensures !(IsExit(symbol) && IsRoom(symbol))
{
}

/** The flags of the grid edges the cell at `coords` touches. */
function GetEdgeFlags(tm: TextMap, index: int, coords: Coordinates): (dirFlags: Direction)
  ensures dirFlags <= DirMask
  ensures Has(dirFlags, North) <==> coords.y <= 0
  ensures Has(dirFlags, East) <==> coords.x >= tm.width - 1
  ensures Has(dirFlags, South) <==> coords.y >= tm.height - 1
  ensures Has(dirFlags, West) <==> coords.x <= 0
{
  Compose(coords.y <= 0, coords.x >= tm.width - 1, coords.y >= tm.height - 1, coords.x <= 0)
}

// ---------------------------------------------------------------------------
// Building rooms and links
// ---------------------------------------------------------------------------

/** A text map whose area holds exactly width*height cells. */
predicate Rectangular(tm: TextMap)
{
  tm.width >= 0 && tm.height >= 0 && |tm.area| == tm.width * tm.height
}

/** A rectangular map with at least one cell is at least one cell wide. */
lemma WidthPositive(tm: TextMap, index: int)
  requires Rectangular(tm) && 0 <= index < |tm.area|
  ensures tm.width > 0
{
}

/** A pending connection between the rooms at two area indices. */
datatype Link = Link(start: int, end: int, direction: Direction)

/** The neighbours an exit symbol joins: North and South for `|`, East and West otherwise. */
function ExitFlags(symbol: string): (dir: Direction)
  ensures Has(dir, North) == Has(dir, South) == (symbol == "|")
  ensures Has(dir, East) == Has(dir, West) == (symbol != "|")
{
  if symbol == "|" then North + South else East + West
}

/** `flag` with every cardinal set in `mask` cleared. */
function Without(flag: Direction, mask: Direction): (r: Direction)
  ensures forall d :: IsCardinal(d) ==> (Has(r, d) <==> Has(flag, d) && !Has(mask, d))
{
  Compose(Has(flag, North) && !Has(mask, North), Has(flag, East) && !Has(mask, East),
          Has(flag, South) && !Has(mask, South), Has(flag, West) && !Has(mask, West))
}

/**
 * The cells `buildExit` looks up around an exit cell, keyed by direction,
 * with no edge check: above and below for `|`, right and left otherwise.
 */
function ExitEnds(tm: TextMap, index: int): (ends: map<Direction, int>)
  requires 0 <= index < |tm.area|
  ensures tm.area[index] == "|" ==> ends == map[North := index - tm.width, South := index + tm.width]
  ensures tm.area[index] != "|" ==> ends == map[East := index + 1, West := index - 1]
{
  var ends := FlagToIndicies(tm.width, index, ExitFlags(tm.area[index]));
  if tm.area[index] == "|" then
    assert ends.Keys == {North, South};
    ends
  else
    assert ends.Keys == {East, West};
    ends
}

/**
 * The cells around an exit cell that lie inside the grid: the exit's
 * directions with those of the grid edges the cell touches removed.
 */
function MaskedExitEnds(tm: TextMap, index: int): map<Direction, int>
  requires 0 <= index < |tm.area| && tm.width > 0
{
  var edges := GetEdgeFlags(tm, index, GetCoords(index, tm.width, tm.height));
  FlagToIndicies(tm.width, index, Without(ExitFlags(tm.area[index]), edges))
}

/**
 * Whether an exit with these looked-up cells may record `l`: with exactly
 * two cells, one is the start and the other the end (Go takes them in map
 * iteration order, which is unspecified), and the direction is the one
 * between them; with any other number, it records nothing.
 */
predicate IsLinkChoice(ends: map<Direction, int>, width: int, l: Link)
  requires width > 0
{
  && |ends| == 2
  && (exists a, b :: a in ends && b in ends && a != b && l.start == ends[a] && l.end == ends[b])
  && l.direction == CardinalDirBetween(l.start, l.end, width)
}

/**
 * As written, an exit cell always looks up exactly two cells, so the length
 * test in `buildExit` never fails, even at the grid's edge.
 */
lemma ExitAlwaysHasTwoEnds(tm: TextMap, index: int)
  requires 0 <= index < |tm.area|
  ensures |ExitEnds(tm, index)| == 2
{
  var ends := ExitEnds(tm, index);
  if tm.area[index] == "|" {
    assert ends.Keys == {North, South};
  } else {
    assert ends.Keys == {East, West};
  }
}

/**
 * As written, a `-` at the right end of a row links the cell before it with
 * the first cell of the next row: in the 3-wide map "AB-" over "C", the
 * exit at index 2 joins B at (1, 0) with C at (0, 1).
 */
lemma EdgeExitWrapsToNextRow()
  ensures var tm := TextMap(3, 2, ["A", "B", "-", "C", "", ""]);
          && IsRoom(tm.area[1]) && IsRoom(tm.area[3])
          && GetCoords(1, 3, 2) == Coordinates(1, 0) && GetCoords(3, 3, 2) == Coordinates(0, 1)
          && IsLinkChoice(ExitEnds(tm, 2), 3, Link(1, 3, East))
          && IsLinkChoice(ExitEnds(tm, 2), 3, Link(3, 1, West))
          && forall l :: IsLinkChoice(ExitEnds(tm, 2), 3, l) ==> l == Link(1, 3, East) || l == Link(3, 1, West)
{
  var tm := TextMap(3, 2, ["A", "B", "-", "C", "", ""]);
  var ends := ExitEnds(tm, 2);
  assert ends == map[East := 3, West := 1];
  assert CardinalDirBetween(3, 1, 3) == West;
  assert CardinalDirBetween(1, 3, 3) == East;
  assert IsLinkChoice(ends, 3, Link(1, 3, East)) by {
    assert West in ends && East in ends && ends[West] == 1 && ends[East] == 3;
  }
  assert IsLinkChoice(ends, 3, Link(3, 1, West)) by {
    assert East in ends && West in ends && ends[East] == 3 && ends[West] == 1;
  }
}

/**
 * The two vertical neighbours of a cell strictly between the first and last
 * rows lie inside the grid in the cell's column, south of each other.
 */
lemma ColumnNeighbours(w: int, h: int, x: int, y: int)
  requires 0 <= x < w && 1 <= y < h - 1
  ensures var index := x + y * w;
          && 0 <= index - w && index + w < w * h
          && (index - w) / w == y - 1 && (index - w) % w == x
          && (index + w) / w == y + 1 && (index + w) % w == x
          && CardinalDirBetween(index - w, index + w, w) == South
          && CardinalDirBetween(index + w, index - w, w) == North
{
  var index := x + y * w;
  CellBeforeRows(x, y - 1, h, w);
  CellBeforeRows(x, y + 1, h, w);
  assert index - w == x + (y - 1) * w && index + w == x + (y + 1) * w;
  DivModUnique(index - w, w, y - 1, x);
  DivModUnique(index + w, w, y + 1, x);
  assert (index - w) - (index + w) == (-2) * w;
  DivModUnique((-2) * w, w, -2, 0);
  DivModUnique(2 * w, w, 2, 0);
}

/**
 * The two horizontal neighbours of a cell strictly between the first and
 * last columns lie inside the grid on the cell's row, east of each other.
 */
lemma RowNeighbours(w: int, h: int, x: int, y: int)
  requires 1 <= x < w - 1 && 0 <= y < h
  ensures var index := x + y * w;
          && 0 <= index - 1 && index + 1 < w * h
          && (index - 1) / w == y && (index - 1) % w == x - 1
          && (index + 1) / w == y && (index + 1) % w == x + 1
          && CardinalDirBetween(index - 1, index + 1, w) == East
          && CardinalDirBetween(index + 1, index - 1, w) == West
{
  var index := x + y * w;
  CellBeforeRows(x - 1, y, h, w);
  CellBeforeRows(x + 1, y, h, w);
  DivModUnique(index - 1, w, y, x - 1);
  DivModUnique(index + 1, w, y, x + 1);
  DivModUnique(2, w, 0, 2);
  DivModUnique(-2, w, -1, w - 2);
}

/**
 * The cells a masked `|` looks up: the cell above unless the exit is on the
 * first row and the cell below unless it is on the last.
 */
lemma MaskedColumnShape(tm: TextMap, index: int)
  requires Rectangular(tm) && 0 <= index < |tm.area| && tm.width > 0 && tm.area[index] == "|"
  ensures var w, x, y, ends := tm.width, index % tm.width, index / tm.width, MaskedExitEnds(tm, index);
          && 0 <= x < w && 0 <= y < tm.height && index == x + y * w
          && (North in ends <==> y >= 1) && (South in ends <==> y < tm.height - 1)
          && (forall d :: d in ends ==> IsCardinal(d)) && East !in ends && West !in ends
          && (North in ends ==> ends[North] == index - w) && (South in ends ==> ends[South] == index + w)
{
  var w, h := tm.width, tm.height;
  var x, y := index % w, index / w;
  CoordsInGrid(index, w, h);
  assert GetCoords(index, w, h) == Coordinates(x, y);
}

/**
 * The cells a masked `-` looks up: the cell to the right unless the exit is
 * in the last column and the cell to the left unless it is in the first.
 */
lemma MaskedRowShape(tm: TextMap, index: int)
  requires Rectangular(tm) && 0 <= index < |tm.area| && tm.width > 0 && tm.area[index] != "|"
  ensures var w, x, y, ends := tm.width, index % tm.width, index / tm.width, MaskedExitEnds(tm, index);
          && 0 <= x < w && 0 <= y < tm.height && index == x + y * w
          && (East in ends <==> x < w - 1) && (West in ends <==> x >= 1)
          && (forall d :: d in ends ==> IsCardinal(d)) && North !in ends && South !in ends
          && (East in ends ==> ends[East] == index + 1) && (West in ends ==> ends[West] == index - 1)
{
  var w, h := tm.width, tm.height;
  var x, y := index % w, index / w;
  CoordsInGrid(index, w, h);
  assert GetCoords(index, w, h) == Coordinates(x, y);
}

/** When only the cells above and below `index` can be looked up, a link choice needs both and joins them. */
lemma ColumnChoice(index: int, w: int, ends: map<Direction, int>, l: Link)
  requires (forall d :: d in ends ==> IsCardinal(d)) && East !in ends && West !in ends
  requires (North in ends ==> ends[North] == index - w) && (South in ends ==> ends[South] == index + w)
  requires w > 0 && IsLinkChoice(ends, w, l)
  ensures North in ends && South in ends
  ensures (l.start == index - w && l.end == index + w) || (l.start == index + w && l.end == index - w)
{
  var a, b :| a in ends && b in ends && a != b && l.start == ends[a] && l.end == ends[b];
}

/** When only the cells left and right of `index` can be looked up, a link choice needs both and joins them. */
lemma RowChoice(index: int, w: int, ends: map<Direction, int>, l: Link)
  requires (forall d :: d in ends ==> IsCardinal(d)) && North !in ends && South !in ends
  requires (East in ends ==> ends[East] == index + 1) && (West in ends ==> ends[West] == index - 1)
  requires w > 0 && IsLinkChoice(ends, w, l)
  ensures East in ends && West in ends
  ensures (l.start == index - 1 && l.end == index + 1) || (l.start == index + 1 && l.end == index - 1)
{
  var a, b :| a in ends && b in ends && a != b && l.start == ends[a] && l.end == ends[b];
}

/**
 * A link between the cells above and below a cell (x, y) strictly inside
 * the grid's rows, in either order, lies inside the grid in the cell's
 * column, and its direction leads from the start through the cell to the end.
 */
lemma LinkAcrossColumn(w: int, h: int, x: int, y: int, l: Link)
  requires 0 <= x < w && 1 <= y < h - 1
  requires (l.start == x + y * w - w && l.end == x + y * w + w) || (l.start == x + y * w + w && l.end == x + y * w - w)
  requires l.direction == CardinalDirBetween(l.start, l.end, w)
  ensures var index := x + y * w;
          && 0 <= l.start < w * h && 0 <= l.end < w * h
          && IsCardinal(l.direction)
          && Neighbour(w, l.start, l.direction) == index && Neighbour(w, index, l.direction) == l.end
          && l.start % w == x == l.end % w
{
  ColumnNeighbours(w, h, x, y);
}

/**
 * A link between the cells left and right of a cell (x, y) strictly inside
 * the grid's columns, in either order, lies inside the grid on the cell's
 * row, and its direction leads from the start through the cell to the end.
 */
lemma LinkAcrossRow(w: int, h: int, x: int, y: int, l: Link)
  requires 1 <= x < w - 1 && 0 <= y < h
  requires (l.start == x + y * w - 1 && l.end == x + y * w + 1) || (l.start == x + y * w + 1 && l.end == x + y * w - 1)
  requires l.direction == CardinalDirBetween(l.start, l.end, w)
  ensures var index := x + y * w;
          && 0 <= l.start < w * h && 0 <= l.end < w * h
          && IsCardinal(l.direction)
          && Neighbour(w, l.start, l.direction) == index && Neighbour(w, index, l.direction) == l.end
          && l.start / w == y == l.end / w
{
  RowNeighbours(w, h, x, y);
}

/** `MaskedLinkAdjacent` for a `|` cell. */
lemma MaskedColumnLink(tm: TextMap, index: int, l: Link)
  requires Rectangular(tm) && 0 <= index < |tm.area| && tm.area[index] == "|"
  requires tm.width > 0 && IsLinkChoice(MaskedExitEnds(tm, index), tm.width, l)
  ensures 0 <= l.start < |tm.area| && 0 <= l.end < |tm.area| && IsCardinal(l.direction)
  ensures Neighbour(tm.width, l.start, l.direction) == index && Neighbour(tm.width, index, l.direction) == l.end
  ensures l.start % tm.width == index % tm.width == l.end % tm.width
{
  var w, h := tm.width, tm.height;
  MaskedColumnShape(tm, index);
  ColumnChoice(index, w, MaskedExitEnds(tm, index), l);
  LinkAcrossColumn(w, h, index % w, index / w, l);
}

/** `MaskedLinkAdjacent` for a `-` cell. */
lemma MaskedRowLink(tm: TextMap, index: int, l: Link)
  requires Rectangular(tm) && 0 <= index < |tm.area| && tm.area[index] != "|"
  requires tm.width > 0 && IsLinkChoice(MaskedExitEnds(tm, index), tm.width, l)
  ensures 0 <= l.start < |tm.area| && 0 <= l.end < |tm.area| && IsCardinal(l.direction)
  ensures Neighbour(tm.width, l.start, l.direction) == index && Neighbour(tm.width, index, l.direction) == l.end
  ensures l.start / tm.width == index / tm.width == l.end / tm.width
{
  var w, h := tm.width, tm.height;
  MaskedRowShape(tm, index);
  RowChoice(index, w, MaskedExitEnds(tm, index), l);
  LinkAcrossRow(w, h, index % w, index / w, l);
}

/**
 * With the edges masked, a link recorded for an exit cell joins its two
 * neighbours on the exit's axis, both inside the grid, on the same row for
 * `-` and the same column for `|`, and its direction leads from the start
 * through the exit cell to the end.
 */
lemma MaskedLinkAdjacent(tm: TextMap, index: int, l: Link)
  requires Rectangular(tm) && 0 <= index < |tm.area|
  requires tm.width > 0 && IsLinkChoice(MaskedExitEnds(tm, index), tm.width, l)
  ensures 0 <= l.start < |tm.area| && 0 <= l.end < |tm.area|
  ensures IsCardinal(l.direction)
  ensures Neighbour(tm.width, l.start, l.direction) == index && Neighbour(tm.width, index, l.direction) == l.end
  ensures tm.area[index] != "|" ==>
            GetCoords(l.start, tm.width, tm.height).y == GetCoords(index, tm.width, tm.height).y == GetCoords(l.end, tm.width, tm.height).y
  ensures tm.area[index] == "|" ==>
            GetCoords(l.start, tm.width, tm.height).x == GetCoords(index, tm.width, tm.height).x == GetCoords(l.end, tm.width, tm.height).x
{
  if tm.area[index] == "|" {
    MaskedColumnLink(tm, index, l);
  } else {
    MaskedRowLink(tm, index, l);
  }
}

/**
 * The per-map state of room building: the map being read, the room built
 * for each room cell so far, and the links recorded for exit cells.
 */
class MapWorker {
  const textMap: TextMap
  var completedRooms: map<int, Room>
  var links: seq<Link>

  /** `CreateMapWorker`: no rooms and no links yet. */
  constructor (tm: TextMap)
    ensures textMap == tm && completedRooms == map[] && links == []
  {
    textMap := tm;
    completedRooms := map[];
    links := [];
  }

  /** The rooms built so far. */
  ghost function Rooms(): set<Room>
    reads this`completedRooms
  {
    completedRooms.Values
  }

  /** Stores a fresh generic room named by the symbol at `index`. */
  method BuildRoom(index: int)
    requires 0 <= index < |textMap.area|
    modifies this`completedRooms
    ensures index in completedRooms && completedRooms == old(completedRooms)[index := completedRooms[index]]
    ensures fresh(completedRooms[index])
    ensures completedRooms[index].name == textMap.area[index]
    ensures completedRooms[index].description == "This is a boring generic room."
    ensures completedRooms[index].exits == [] && GenericRoom(completedRooms[index])
  {
    var output := new Room.Generic();
    output.name := textMap.area[index];
    completedRooms := completedRooms[index := output];
  }

  /**
   * `buildExit` as written: records a link between the two cells the exit
   * looks up, with no check that they lie on the exit's row or column.
   */
  method BuildExitAsWritten(index: int)
    requires Rectangular(textMap) && 0 <= index < |textMap.area|
    modifies this`links
    ensures textMap.width > 0
    ensures |ExitEnds(textMap, index)| == 2 ==>
              |links| == |old(links)| + 1 && links[..|old(links)|] == old(links) &&
              IsLinkChoice(ExitEnds(textMap, index), textMap.width, links[|old(links)|])
    ensures |ExitEnds(textMap, index)| != 2 ==> links == old(links)
  {
    WidthPositive(textMap, index);
    var ends := ExitEnds(textMap, index);
    if |ends| == 2 {
      var a :| a in ends;
      var b :| b in ends && b != a by {
        assert ends.Keys != {a};
      }
      var start, end := ends[a], ends[b];
      links := links + [Link(start, end, CardinalDirBetween(start, end, textMap.width))];
    }
  }

  /**
   * `buildExit` with the grid edges masked out of the exit's directions: a
   * link is recorded only when both cells it would join lie inside the grid
   * on the exit's axis.
   */
  method BuildExit(index: int)
    requires Rectangular(textMap) && 0 <= index < |textMap.area|
    modifies this`links
    ensures textMap.width > 0
    ensures |MaskedExitEnds(textMap, index)| == 2 ==>
              |links| == |old(links)| + 1 && links[..|old(links)|] == old(links) &&
              IsLinkChoice(MaskedExitEnds(textMap, index), textMap.width, links[|old(links)|])
    ensures |MaskedExitEnds(textMap, index)| != 2 ==> links == old(links)
  {
    WidthPositive(textMap, index);
    var ends := MaskedExitEnds(textMap, index);
    if |ends| == 2 {
      var a :| a in ends;
      var b :| b in ends && b != a by {
        assert ends.Keys != {a};
      }
      var start, end := ends[a], ends[b];
      links := links + [Link(start, end, CardinalDirBetween(start, end, textMap.width))];
    }
  }

  /**
   * The worker's state once `buildRooms` has visited the first `i` cells:
   * a room with no exits for each room cell so far, distinct rooms, and for
   * each exit cell with two ends the position `linkOf[x]` of its link, and
   * for each link the exit cell `cellOf[j]` that recorded it.
   */
  ghost predicate BuiltUpTo(i: int, linkOf: map<int, int>, cellOf: seq<int>)
    reads this`completedRooms, this`links, Rooms()`name, Rooms()`exits, Rooms()`description, Rooms()`commands, Rooms()`contents
  {
    0 <= i <= |textMap.area| && RoomsUpTo(i) && LinksUpTo(textMap, links, i, linkOf) &&
    LinksFromCells(textMap, links, i, cellOf)
  }

  /** A distinct generic room with no exits for each room cell before `i`. */
  ghost predicate RoomsUpTo(i: int)
    reads this`completedRooms, Rooms()`name, Rooms()`exits, Rooms()`description, Rooms()`commands, Rooms()`contents
  {
    && (forall k :: k in completedRooms <==> 0 <= k < i && k < |textMap.area| && IsRoom(textMap.area[k]))
    && (forall k :: k in completedRooms ==>
          completedRooms[k].name == textMap.area[k] && completedRooms[k].exits == [] && GenericRoom(completedRooms[k]))
    && (forall k, k' :: k in completedRooms && k' in completedRooms && k != k' ==> completedRooms[k] != completedRooms[k'])
  }

  /**
   * The loop of `buildRooms` over the cells of the map, from a fresh worker:
   * afterwards there is a distinct fresh room named by its symbol for each
   * room cell, none with exits yet, `linkOf` locates the link of each
   * exit cell with two ends and `cellOf` names the exit cell of each link.
   */
  method BuildCells() returns (ghost linkOf: map<int, int>, ghost cellOf: seq<int>)
    requires Rectangular(textMap) && completedRooms == map[] && links == []
    modifies this`completedRooms, this`links
    ensures LinksUpTo(textMap, links, |textMap.area|, linkOf)
    ensures LinksFromCells(textMap, links, |textMap.area|, cellOf)
    ensures forall k :: k in completedRooms <==> 0 <= k < |textMap.area| && IsRoom(textMap.area[k])
    ensures forall k :: k in completedRooms ==> fresh(completedRooms[k]) && completedRooms[k].name == textMap.area[k]
    ensures forall k :: k in completedRooms ==> GenericRoom(completedRooms[k])
    ensures forall k, k' :: k in completedRooms && k' in completedRooms && k != k' ==> completedRooms[k] != completedRooms[k']
    ensures forall r :: r in Rooms() ==> fresh(r) && r.exits == []
    ensures Symmetric(Rooms()) && CardinallyNamed(Rooms())
    ensures forall k {:trigger CellDegree(textMap, k, |textMap.area|)} ::
              LinkDegree(links, completedRooms.Keys, k) == CellDegree(textMap, k, |textMap.area|)
  {
    // for each exit cell with two ends, the position of its link in links
    linkOf, cellOf := map[], [];
    for i := 0 to |textMap.area|
      invariant BuiltUpTo(i, linkOf, cellOf)
      invariant forall k :: k in completedRooms ==> fresh(completedRooms[k])
      invariant DegreesFromCells(textMap, links, i)
    {
      linkOf, cellOf := BuildCell(i, linkOf, cellOf);
    }
    assert completedRooms.Keys == RoomCells(textMap);
    forall r | r in Rooms()
      ensures fresh(r)
    {
      var k := KeyOf(r);
    }
    UnlinkedRooms();
  }

  /** The cell a built room was built for. */
  ghost function KeyOf(r: Room): (k: int)
    reads this
    requires r in Rooms()
    ensures k in completedRooms && completedRooms[k] == r
  {
    var m := completedRooms;
    assert (forall k :: k in m ==> m[k] != r) ==> r !in m.Values;
    var k :| k in completedRooms && completedRooms[k] == r; k
  }

  /** Rooms built with no exits yet form a symmetric, cardinally named graph. */
  lemma UnlinkedRooms()
    requires RoomsUpTo(|textMap.area|)
    ensures forall r :: r in Rooms() ==> r.exits == []
    ensures Symmetric(Rooms()) && CardinallyNamed(Rooms())
  {
    forall r | r in Rooms()
      ensures r.exits == []
    {
      var k := KeyOf(r);
    }
    UnlinkedGraph(Rooms());
  }

  /**
   * Once every link is joined, each exit cell whose two masked ends are
   * rooms joins those rooms both ways.
   */
  lemma ExitsJoined(linkOf: map<int, int>)
    requires Rectangular(textMap) && LinksUpTo(textMap, links, |textMap.area|, linkOf)
    requires forall k :: k in completedRooms <==> 0 <= k < |textMap.area| && IsRoom(textMap.area[k])
    requires forall j :: 0 <= j < |links| && Joins(links[j]) ==> JoinedBothWays(links[j])
    ensures forall x :: ExitCellJoined(textMap, completedRooms, x)
  {
    forall x | 0 <= x < |textMap.area| && textMap.width > 0 && IsExit(textMap.area[x]) && EndsAreRooms(textMap, x)
      ensures ExitJoined(textMap, completedRooms, x)
    {
      var l := links[linkOf[x]];
      MaskedLinkCardinal(textMap, x, l);
      assert Joins(l);
      assert JoinedBothWays(l);
    }
  }

  /**
   * Once every link is joined, every exit of every room is one of the two
   * exits of the link that some exit cell recorded.
   */
  lemma ExitsFromCells(cellOf: seq<int>)
    requires LinksFromCells(textMap, links, |textMap.area|, cellOf) && ExitsSourced(|links|)
    ensures forall k, q :: k in completedRooms && 0 <= q < |completedRooms[k].exits| ==>
              ExitFromCell(textMap, completedRooms, k, q)
  {
    forall k, q | k in completedRooms && 0 <= q < |completedRooms[k].exits|
      ensures ExitFromCell(textMap, completedRooms, k, q)
    {
      assert ExitSourced(k, q, |links|);
      var j :| j < |links| && ExitOfLink(k, completedRooms[k].exits[q], j);
      assert IsLinkChoice(MaskedExitEnds(textMap, cellOf[j]), textMap.width, links[j]);
    }
  }

  /** One iteration of `buildRooms`: a room for a room cell, a link for an exit cell. */
  method BuildCell(i: int, ghost linkOf: map<int, int>, ghost cellOf: seq<int>)
    returns (ghost linkOf': map<int, int>, ghost cellOf': seq<int>)
    requires Rectangular(textMap) && BuiltUpTo(i, linkOf, cellOf) && i < |textMap.area|
    requires DegreesFromCells(textMap, links, i)
    modifies this`completedRooms, this`links
    ensures BuiltUpTo(i + 1, linkOf', cellOf')
    ensures forall k :: k in completedRooms ==> (k in old(completedRooms) && completedRooms[k] == old(completedRooms[k])) || fresh(completedRooms[k])
    ensures DegreesFromCells(textMap, links, i + 1)
  {
    WidthPositive(textMap, i);
    linkOf', cellOf' := linkOf, cellOf;
    if IsRoom(textMap.area[i]) {
      RoomCell(i, linkOf, cellOf);
    } else if IsExit(textMap.area[i]) {
      PastNonRoom(i);
      linkOf', cellOf' := ExitCell(i, linkOf, cellOf);
    } else {
      BlankCell(i, linkOf, cellOf);
    }
  }

  /** `buildRooms` on a cell that is neither a room nor an exit: nothing is built. */
  lemma BlankCell(i: int, linkOf: map<int, int>, cellOf: seq<int>)
    requires Rectangular(textMap) && BuiltUpTo(i, linkOf, cellOf) && i < |textMap.area|
    requires !IsRoom(textMap.area[i]) && !IsExit(textMap.area[i]) && DegreesFromCells(textMap, links, i)
    ensures BuiltUpTo(i + 1, linkOf, cellOf) && DegreesFromCells(textMap, links, i + 1)
  {
    WidthPositive(textMap, i);
    DegreeNoExit(textMap, i, links);
    PastNonRoom(i);
    NoLinkRecorded(textMap, links, i, linkOf);
    CellsPast(textMap, links, i, cellOf);
  }

  /** `buildRooms` on a room cell. */
  method RoomCell(i: int, ghost linkOf: map<int, int>, ghost cellOf: seq<int>)
    requires Rectangular(textMap) && BuiltUpTo(i, linkOf, cellOf) && i < |textMap.area| && IsRoom(textMap.area[i])
    requires DegreesFromCells(textMap, links, i)
    modifies this`completedRooms
    ensures BuiltUpTo(i + 1, linkOf, cellOf) && DegreesFromCells(textMap, links, i + 1)
    ensures forall k :: k in completedRooms ==> (k in old(completedRooms) && completedRooms[k] == old(completedRooms[k])) || fresh(completedRooms[k])
  {
    WidthPositive(textMap, i);
    assert !IsExit(textMap.area[i]);
    DegreeNoExit(textMap, i, links);
    BuildRoom(i);
    assert RoomsUpTo(i + 1);
    NoLinkRecorded(textMap, links, i, linkOf);
    CellsPast(textMap, links, i, cellOf);
  }

  /** A cell that is not a room adds no room. */
  lemma PastNonRoom(i: int)
    requires RoomsUpTo(i) && 0 <= i < |textMap.area| && !IsRoom(textMap.area[i])
    ensures RoomsUpTo(i + 1)
  {
  }

  /**
   * `buildRooms` on an exit cell: one link, recorded by this cell, when its
   * two masked ends exist, and otherwise the links as they were.
   */
  method ExitCell(i: int, ghost linkOf: map<int, int>, ghost cellOf: seq<int>)
    returns (ghost linkOf': map<int, int>, ghost cellOf': seq<int>)
    requires Rectangular(textMap) && 0 <= i < |textMap.area| && IsExit(textMap.area[i])
    requires LinksUpTo(textMap, links, i, linkOf) && LinksFromCells(textMap, links, i, cellOf)
    requires RoomsUpTo(i + 1) && DegreesFromCells(textMap, links, i)
    modifies this`links
    ensures BuiltUpTo(i + 1, linkOf', cellOf') && completedRooms == old(completedRooms)
    ensures ScanStep(textMap, i, old(links), links) && DegreesFromCells(textMap, links, i + 1)
  {
    WidthPositive(textMap, i);
    ghost var before := links;
    BuildExit(i);
    assert RoomsUpTo(i + 1);
    if |MaskedExitEnds(textMap, i)| == 2 {
      LinkRecorded(textMap, before, links, i, linkOf);
      assert RecordedBy(textMap, i, links[|before|]) && links == before + [links[|before|]];
      CellSnoc(textMap, before, links[|before|], i, cellOf);
      linkOf', cellOf' := linkOf[i := |before|], cellOf + [i];
    } else {
      NoLinkRecorded(textMap, links, i, linkOf);
      CellsPast(textMap, links, i, cellOf);
      linkOf', cellOf' := linkOf, cellOf;
    }
    DegreeStep(textMap, i, before, links);
  }

  /** `joinLinks` connects a link exactly when both ends are built rooms and it has a direction. */
  predicate Joins(l: Link)
    reads this`completedRooms
  {
    l.start in completedRooms && l.end in completedRooms && l.direction != BadDir
  }

  /**
   * The start room of `l` has an exit named after its direction leading to
   * the end room, and the end room one named after the inverse leading back.
   */
  ghost predicate JoinedBothWays(l: Link)
    reads this`completedRooms, Rooms(), ExitsOf(Rooms())
    requires Joins(l)
  {
    Connected(completedRooms[l.start], completedRooms[l.end], l.direction) &&
    Connected(completedRooms[l.end], completedRooms[l.start], InvertDir(l.direction))
  }

  /**
   * Connects the rooms of every link that `Joins`, in link order, with exits
   * named after the link's direction and its inverse, starting from rooms
   * without exits. The rooms form a symmetric, cardinally named graph in
   * which every exit is one of the two exits of a joined link.
   */
  method JoinLinks()
    requires forall r :: r in Rooms() ==> r.exits == []
    requires OneRoomPerCell() && Directed(links)
    modifies Rooms()`exits
    ensures Symmetric(Rooms()) && CardinallyNamed(Rooms())
    ensures forall i :: 0 <= i < |links| && Joins(links[i]) ==> JoinedBothWays(links[i])
    ensures ExitsSourced(|links|)
    ensures forall k {:trigger LinkDegree(links, completedRooms.Keys, k)} :: k in completedRooms ==>
              |completedRooms[k].exits| == LinkDegree(links, completedRooms.Keys, k)
    ensures forall k :: k in completedRooms ==> completedRooms[k].name == old(completedRooms[k].name)
  {
    ghost var graph := Rooms();
    UnlinkedGraph(graph);
    // for each joined link, the positions of its two exits in the rooms' exit lists
    ghost var at: map<int, (int, int)> := map[];
    for i := 0 to |links|
      invariant graph == Rooms() && Symmetric(graph) && CardinallyNamed(graph)
      invariant JoinedBefore(i, at) && ExitsSourced(i)
      invariant forall k :: k in completedRooms ==> completedRooms[k].name == old(completedRooms[k].name)
      invariant ExitCountsUpTo(i)
    {
      at := JoinStep(i, graph, at);
      forall k | k in completedRooms
        ensures |completedRooms[k].exits| == LinkDegree(links[..i + 1], completedRooms.Keys, k)
      {
        DegreeSnoc(links, i, completedRooms.Keys, k);
      }
    }
    assert links[..|links|] == links;
    forall i | 0 <= i < |links| && Joins(links[i])
      ensures JoinedBothWays(links[i])
    {
      var l, p := links[i], at[i];
      assert ExitTo(completedRooms[l.start], p.0, completedRooms[l.end], l.direction);
      assert ExitTo(completedRooms[l.end], p.1, completedRooms[l.start], InvertDir(l.direction));
    }
  }

  /** Each room holds one exit per end at its cell of a joined link before `i`. */
  ghost predicate ExitCountsUpTo(i: int)
    reads this`completedRooms, this`links, Rooms()`exits
  {
    0 <= i <= |links| &&
    forall k :: k in completedRooms ==> |completedRooms[k].exits| == LinkDegree(links[..i], completedRooms.Keys, k)
  }

  /** No two cells share a room. */
  ghost predicate OneRoomPerCell()
    reads this`completedRooms
  {
    forall k, k' :: k in completedRooms && k' in completedRooms && k != k' ==> completedRooms[k] != completedRooms[k']
  }

  /** Every joined link before `i` has its two exits at the positions `at` records. */
  ghost predicate JoinedBefore(i: int, at: map<int, (int, int)>)
    reads this`completedRooms, this`links, Rooms(), ExitsOf(Rooms())
  {
    forall j :: 0 <= j < i && j < |links| && Joins(links[j]) ==> j in at && JoinedAt(links[j], at[j])
  }

  /**
   * Exit `e` of the room of cell `k` is one of the two exits joining
   * `links[j]`: at its start, named after its direction and leading to its
   * end, or at its end, named after the inverse and leading back.
   */
  ghost predicate ExitOfLink(k: int, e: Exit, j: int)
    reads this`completedRooms, this`links, e
  {
    k in completedRooms && 0 <= j < |links| && Joins(links[j]) &&
    var l := links[j];
    ((l.start == k && LeadsTo(e, completedRooms[l.end], l.direction)) ||
     (l.end == k && LeadsTo(e, completedRooms[l.start], InvertDir(l.direction))))
  }

  /** Every exit of every room is an exit of some link before `i`. */
  ghost predicate ExitsSourced(i: int)
    reads this`completedRooms, this`links, Rooms(), ExitsOf(Rooms())
  {
    forall k, q :: ExitSourced(k, q, i)
  }

  /** Exit `q` of the room of cell `k`, if there is one, is an exit of some link before `i`. */
  ghost predicate ExitSourced(k: int, q: int, i: int)
    reads this`completedRooms, this`links, Rooms(), ExitsOf(Rooms())
  {
    k in completedRooms && 0 <= q < |completedRooms[k].exits| ==>
      var e := completedRooms[k].exits[q];
      assert completedRooms[k] in Rooms() && e in completedRooms[k].exits;
      exists j :: j < i && ExitOfLink(k, e, j)
  }

  /** One iteration of `joinLinks`, keeping every exit an exit of some link joined so far. */
  method JoinStep(i: int, ghost graph: set<Room>, ghost at: map<int, (int, int)>) returns (ghost at': map<int, (int, int)>)
    requires 0 <= i < |links| && graph == Rooms() && Symmetric(graph) && CardinallyNamed(graph)
    requires OneRoomPerCell() && Directed(links)
    requires JoinedBefore(i, at) && ExitsSourced(i)
    modifies Rooms()`exits
    ensures Symmetric(graph) && CardinallyNamed(graph)
    ensures JoinedBefore(i + 1, at') && ExitsSourced(i + 1)
    ensures forall k :: k in completedRooms ==> completedRooms[k].name == old(completedRooms[k].name)
    ensures forall k :: k in completedRooms ==>
              |completedRooms[k].exits| == |old(completedRooms[k].exits)| + LinkShare(links[i], completedRooms.Keys, k)
  {
    var l := links[i];
    ghost var p;
    p, at' := JoinRecorded(i, graph, at);
    assert forall k :: k in completedRooms ==>
      |completedRooms[k].exits| == |old(completedRooms[k].exits)| + LinkShare(links[i], completedRooms.Keys, k);
    ghost var n := i + 1;
    forall k, q | k in completedRooms && 0 <= q < |completedRooms[k].exits|
      ensures ExitSourced(k, q, n)
    {
      var r := completedRooms[k];
      if q < |old(r.exits)| {
        assert old(ExitSourced(k, q, i));
        var j :| j < i && old(ExitOfLink(k, r.exits[q], j));
        assert r.exits[q] == old(r.exits[q]);
        assert ExitOfLink(k, r.exits[q], j);
      } else {
        assert Joins(l);
        var a, b := completedRooms[l.start], completedRooms[l.end];
        if a == b {
          assert k == l.start == l.end && (q == p.0 || q == p.1);
        } else if r == a {
          assert k == l.start && q == p.0;
        } else {
          assert r == b && k == l.end && q == p.1;
        }
        assert ExitOfLink(k, r.exits[q], i);
      }
    }
  }

  /** `JoinLink` on link `i`, keeping the positions of the earlier links' exits and adding its own. */
  method JoinRecorded(i: int, ghost graph: set<Room>, ghost at: map<int, (int, int)>)
    returns (ghost p: (int, int), ghost at': map<int, (int, int)>)
    requires 0 <= i < |links| && graph == Rooms() && Symmetric(graph) && CardinallyNamed(graph)
    requires Directed(links) && JoinedBefore(i, at) && OneRoomPerCell()
    modifies Rooms()`exits
    ensures Symmetric(graph) && CardinallyNamed(graph) && JoinedBefore(i + 1, at')
    ensures forall k :: k in completedRooms ==>
              |completedRooms[k].exits| == |old(completedRooms[k].exits)| + LinkShare(links[i], completedRooms.Keys, k)
    ensures forall r :: r in graph ==> old(r.exits) <= r.exits
    ensures !Joins(links[i]) ==> forall r :: r in graph ==> r.exits == old(r.exits)
    ensures Joins(links[i]) ==>
              JoinedAt(links[i], p) &&
              ExitOfLink(links[i].start, completedRooms[links[i].start].exits[p.0], i) &&
              ExitOfLink(links[i].end, completedRooms[links[i].end].exits[p.1], i) &&
              AppendedAt(links[i], p, old(completedRooms[links[i].start].exits), old(completedRooms[links[i].end].exits))
    ensures Joins(links[i]) ==>
              forall r :: r in graph && r != completedRooms[links[i].start] && r != completedRooms[links[i].end] ==>
                r.exits == old(r.exits)
    ensures forall k :: k in completedRooms ==> completedRooms[k].name == old(completedRooms[k].name)
  {
    p := JoinLink(links[i], graph);
    at' := if Joins(links[i]) then at[i := p] else at;
    forall j | 0 <= j <= i && Joins(links[j])
      ensures j in at' && JoinedAt(links[j], at'[j])
    {
      if j < i {
        var lj, q := links[j], at[j];
        var a, b := completedRooms[lj.start], completedRooms[lj.end];
        assert old(JoinedAt(lj, q));
        assert a.exits[q.0] == old(a.exits[q.0]) && b.exits[q.1] == old(b.exits[q.1]);
        assert at'[j] == q;
      }
    }
  }

  /**
   * One step of `joinLinks`: when `link` `Joins`, appends one exit to each
   * of its two rooms (two to a room joined to itself), at the positions
   * `p`, and changes no other room; otherwise changes nothing.
   */
  method JoinLink(link: Link, ghost graph: set<Room>) returns (ghost p: (int, int))
    requires graph == Rooms() && Symmetric(graph) && CardinallyNamed(graph) && OneRoomPerCell()
    requires link.direction == BadDir || IsCardinal(link.direction)
    modifies Rooms()`exits
    ensures forall k :: k in completedRooms ==>
              |completedRooms[k].exits| == |old(completedRooms[k].exits)| + LinkShare(link, completedRooms.Keys, k)
    ensures Symmetric(graph) && CardinallyNamed(graph)
    ensures forall r :: r in graph ==> old(r.exits) <= r.exits
    ensures !Joins(link) ==> forall r :: r in graph ==> r.exits == old(r.exits)
    ensures Joins(link) ==> JoinedAt(link, p) && AppendedAt(link, p, old(completedRooms[link.start].exits), old(completedRooms[link.end].exits))
    ensures Joins(link) ==> forall r :: r in graph && r != completedRooms[link.start] && r != completedRooms[link.end] ==> r.exits == old(r.exits)
    ensures forall k :: k in completedRooms ==> completedRooms[k].name == old(completedRooms[k].name)
  {
    p := (0, 0);
    if link.start in completedRooms && link.end in completedRooms && link.direction != BadDir {
      var startRoom, endRoom := completedRooms[link.start], completedRooms[link.end];
      ghost var n, m := |startRoom.exits|, |endRoom.exits|;
      var startSide, endSide := ConnectRoomsCardinally(startRoom, endRoom, link.direction, graph);
      p := if startRoom == endRoom then (n, n + 1) else (n, m);
      assert startRoom.exits[p.0] == startSide && endRoom.exits[p.1] == endSide;
      assert AppendedAt(link, p, old(startRoom.exits), old(endRoom.exits));
      forall k | k in completedRooms
        ensures |completedRooms[k].exits| == |old(completedRooms[k].exits)| + LinkShare(link, completedRooms.Keys, k)
      {
        var r := completedRooms[k];
        assert r == startRoom <==> k == link.start;
        assert r == endRoom <==> k == link.end;
      }
    }
  }

  /**
   * The rooms of `l` hold exactly one exit more each than `startExits` and
   * `endExits` (two more when they are one room), and the new exits sit at
   * the positions `p`.
   */
  ghost predicate AppendedAt(l: Link, p: (int, int), startExits: seq<Exit>, endExits: seq<Exit>)
    reads this`completedRooms, Rooms()
    requires Joins(l)
  {
    var a, b := completedRooms[l.start], completedRooms[l.end];
    if a == b then |a.exits| == |startExits| + 2 && p == (|startExits|, |startExits| + 1)
    else |a.exits| == |startExits| + 1 && |b.exits| == |endExits| + 1 && p == (|startExits|, |endExits|)
  }

  /** The exits recorded at positions `p` join the two rooms of `l` both ways. */
  ghost predicate JoinedAt(l: Link, p: (int, int))
    reads this`completedRooms, Rooms(), ExitsOf(Rooms())
    requires Joins(l)
  {
    ExitTo(completedRooms[l.start], p.0, completedRooms[l.end], l.direction) &&
    ExitTo(completedRooms[l.end], p.1, completedRooms[l.start], InvertDir(l.direction))
  }

  /**
   * The built rooms, each once, in map iteration order (unspecified in Go):
   * `order` is the sequence of area indices they were read at.
   */
  method GetRooms() returns (output: seq<Room>, ghost order: seq<int>)
    ensures |output| == |order| == |completedRooms|
    ensures forall k :: 0 <= k < |order| ==> order[k] in completedRooms && output[k] == completedRooms[order[k]]
    ensures forall k, k' :: 0 <= k < k' < |order| ==> order[k] != order[k']
    ensures forall i :: i in completedRooms ==> i in order
  {
    output, order := [], [];
    var left := completedRooms.Keys;
    while left != {}
      invariant left <= completedRooms.Keys
      invariant |output| == |order| && |order| + |left| == |completedRooms|
      invariant forall k :: 0 <= k < |order| ==> order[k] in completedRooms && order[k] !in left && output[k] == completedRooms[order[k]]
      invariant forall k, k' :: 0 <= k < k' < |order| ==> order[k] != order[k']
      invariant forall i :: i in completedRooms ==> i in left || i in order
      decreases |left|
    {
      assert (forall w :: w !in left) ==> left == {};
      var key :| key in left;
      output, order := output + [completedRooms[key]], order + [key];
      left := left - {key};
    }
  }
}

/** The direction of a link between the masked ends of an exit is a cardinal. */
lemma MaskedLinkCardinal(tm: TextMap, index: int, l: Link)
  requires Rectangular(tm) && 0 <= index < |tm.area|
  requires tm.width > 0 && IsLinkChoice(MaskedExitEnds(tm, index), tm.width, l)
  ensures IsCardinal(l.direction)
{
  MaskedLinkAdjacent(tm, index, l);
}

/** Every link's direction is BadDir or a single cardinal. */
predicate Directed(links: seq<Link>)
{
  forall i :: 0 <= i < |links| ==> links[i].direction == BadDir || IsCardinal(links[i].direction)
}

/**
 * Directed `links` record, at position `linkOf[x]`, a link between the two
 * ends of each exit cell `x` before `i` that has two ends.
 */
ghost predicate LinksUpTo(tm: TextMap, links: seq<Link>, i: int, linkOf: map<int, int>)
{
  && Directed(links)
  && (forall x :: (0 <= x < i && x < |tm.area| && IsExit(tm.area[x]) && tm.width > 0 &&
                   |MaskedExitEnds(tm, x)| == 2) ==> x in linkOf)
  && (forall x :: x in linkOf ==> 0 <= x < |tm.area| && tm.width > 0 && 0 <= linkOf[x] < |links| &&
                                  IsLinkChoice(MaskedExitEnds(tm, x), tm.width, links[linkOf[x]]))
}

/** Appending the link of exit cell `i` keeps the record. */
lemma LinkRecorded(tm: TextMap, before: seq<Link>, after: seq<Link>, i: int, linkOf: map<int, int>)
  requires Rectangular(tm) && 0 <= i < |tm.area| && tm.width > 0 && LinksUpTo(tm, before, i, linkOf)
  requires |after| == |before| + 1 && after[..|before|] == before
  requires IsLinkChoice(MaskedExitEnds(tm, i), tm.width, after[|before|])
  ensures LinksUpTo(tm, after, i + 1, linkOf[i := |before|])
{
  MaskedLinkCardinal(tm, i, after[|before|]);
  DirectedSnoc(before, after);
  LinkOfSnoc(tm, before, after, i, linkOf);
}

/** Appending a link with a direction keeps the links directed. */
lemma DirectedSnoc(before: seq<Link>, after: seq<Link>)
  requires Directed(before) && |after| == |before| + 1 && after[..|before|] == before
  requires IsCardinal(after[|before|].direction)
  ensures Directed(after)
{
  forall j | 0 <= j < |before|
    ensures after[j] == before[j]
  {
    assert after[..|before|][j] == after[j];
  }
}

/** Appending the link of exit cell `i` keeps the earlier positions and adds `i`'s. */
lemma LinkOfSnoc(tm: TextMap, before: seq<Link>, after: seq<Link>, i: int, linkOf: map<int, int>)
  requires 0 <= i < |tm.area| && tm.width > 0
  requires forall x :: x in linkOf ==>
             0 <= x < |tm.area| && 0 <= linkOf[x] < |before| &&
             IsLinkChoice(MaskedExitEnds(tm, x), tm.width, before[linkOf[x]])
  requires |after| == |before| + 1 && after[..|before|] == before
  requires IsLinkChoice(MaskedExitEnds(tm, i), tm.width, after[|before|])
  ensures forall x :: x in linkOf[i := |before|] ==>
            0 <= x < |tm.area| && 0 <= linkOf[i := |before|][x] < |after| &&
            IsLinkChoice(MaskedExitEnds(tm, x), tm.width, after[linkOf[i := |before|][x]])
{
  forall x | x in linkOf && x != i
    ensures after[linkOf[x]] == before[linkOf[x]]
  {
    assert after[..|before|][linkOf[x]] == after[linkOf[x]];
  }
}

/**
 * What the scan of cell `i` does to the links: an exit cell with two masked
 * ends appends exactly one link, which it records; any other cell keeps them.
 */
predicate ScanStep(tm: TextMap, i: int, before: seq<Link>, after: seq<Link>)
{
  if 0 <= i < |tm.area| && tm.width > 0 && IsExit(tm.area[i]) && |MaskedExitEnds(tm, i)| == 2
  then |after| == |before| + 1 && after[..|before|] == before && RecordedBy(tm, i, after[|before|])
  else after == before
}

/**
 * Each link `links[j]` was recorded by the exit cell `cellOf[j]` before `i`,
 * between its two masked ends; cells record at most one link each, in
 * cell order.
 */
ghost predicate LinksFromCells(tm: TextMap, links: seq<Link>, i: int, cellOf: seq<int>)
{
  && |cellOf| == |links|
  && (forall j :: 0 <= j < |links| ==> cellOf[j] < i && RecordedBy(tm, cellOf[j], links[j]))
  && (forall j, j' :: 0 <= j < j' < |cellOf| ==> cellOf[j] < cellOf[j'])
}

/** `l` is a link that exit cell `x` may record between its two masked ends. */
predicate RecordedBy(tm: TextMap, x: int, l: Link)
{
  0 <= x < |tm.area| && tm.width > 0 && IsExit(tm.area[x]) && IsLinkChoice(MaskedExitEnds(tm, x), tm.width, l)
}

/** Appending the link of exit cell `i` names `i` as its cell. */
lemma CellSnoc(tm: TextMap, links: seq<Link>, l: Link, i: int, cellOf: seq<int>)
  requires LinksFromCells(tm, links, i, cellOf) && RecordedBy(tm, i, l)
  ensures LinksFromCells(tm, links + [l], i + 1, cellOf + [i])
{
  var links', cellOf' := links + [l], cellOf + [i];
  forall j | 0 <= j < |links'|
    ensures cellOf'[j] < i + 1 && RecordedBy(tm, cellOf'[j], links'[j])
  {
    if j < |links| {
      assert links'[j] == links[j] && cellOf'[j] == cellOf[j];
    } else {
      assert links'[j] == l && cellOf'[j] == i;
    }
  }
  forall j, j' | 0 <= j < j' < |cellOf'|
    ensures cellOf'[j] < cellOf'[j']
  {
    assert cellOf'[j] == cellOf[j] < i;
    if j' < |cellOf| {
      assert cellOf'[j'] == cellOf[j'];
    }
  }
}

/** A cell that records no link keeps the links' cells. */
lemma CellsPast(tm: TextMap, links: seq<Link>, i: int, cellOf: seq<int>)
  requires LinksFromCells(tm, links, i, cellOf)
  ensures LinksFromCells(tm, links, i + 1, cellOf)
{
}

/** A cell that records no link keeps the record. */
lemma NoLinkRecorded(tm: TextMap, links: seq<Link>, i: int, linkOf: map<int, int>)
  requires 0 <= i < |tm.area| && tm.width > 0 && LinksUpTo(tm, links, i, linkOf)
  requires !(IsExit(tm.area[i]) && |MaskedExitEnds(tm, i)| == 2) || i in linkOf
  ensures LinksUpTo(tm, links, i + 1, linkOf)
{
}

/**
 * Rooms read off a map with no two keys sharing a room, in a key order
 * that visits every key once, list each room of the map exactly once.
 */
lemma ListedOnce(placed: map<int, Room>, rooms: seq<Room>, order: seq<int>)
  requires forall i, j :: i in placed && j in placed && i != j ==> placed[i] != placed[j]
  requires |rooms| == |order| == |placed|
  requires forall k :: 0 <= k < |order| ==> order[k] in placed && rooms[k] == placed[order[k]]
  requires forall k, k' :: 0 <= k < k' < |order| ==> order[k] != order[k']
  requires forall i :: i in placed ==> i in order
  ensures forall r :: r in rooms <==> r in placed.Values
  ensures forall k, k' :: 0 <= k < k' < |rooms| ==> rooms[k] != rooms[k']
{
  forall r | r in placed.Values
    ensures r in rooms
  {
    var m := placed;
    assert (forall i :: i in m ==> m[i] != r) ==> r !in m.Values;
    var i :| i in placed && placed[i] == r;
    assert (forall k :: 0 <= k < |order| ==> order[k] != i) ==> i !in order;
    var k :| 0 <= k < |order| && order[k] == i;
    assert rooms[k] == r;
  }
}

/** Room `a` has an exit named after `d` that leads to room `b`. */
ghost predicate Connected(a: Room, b: Room, d: Direction)
  reads a, set e | e in a.exits
{
  exists k :: ExitTo(a, k, b, d)
}

/** The exit at position `k` of room `a` is named after `d` and leads to room `b`. */
ghost predicate ExitTo(a: Room, k: int, b: Room, d: Direction)
  reads a, set e | e in a.exits
{
  0 <= k < |a.exits| && LeadsTo(a.exits[k], b, d)
}

/** Exit `e` is named after `d` and leads to room `b`. */
predicate LeadsTo(e: Exit, b: Room, d: Direction)
  reads e
{
  e.names == DirToCommandStrings(d) && e.destination != null && e.destination.room == b
}

/**
 * The rooms of a map exit cell `x` are joined both ways: for some order of
 * its two masked ends, the room at the start has an exit named after the
 * direction between them leading to the room at the end, and that room one
 * named after the inverse leading back.
 */
ghost predicate ExitJoined(tm: TextMap, placed: map<int, Room>, x: int)
  reads placed.Values, ExitsOf(placed.Values)
  requires 0 <= x < |tm.area| && tm.width > 0
{
  exists l :: IsLinkChoice(MaskedExitEnds(tm, x), tm.width, l) && l.start in placed && l.end in placed &&
    Connected(placed[l.start], placed[l.end], l.direction) &&
    Connected(placed[l.end], placed[l.start], InvertDir(l.direction))
}

/**
 * Exit cell `x`, when its two masked ends hold rooms, joins those rooms
 * both ways.
 */
ghost predicate ExitCellJoined(tm: TextMap, placed: map<int, Room>, x: int)
  reads placed.Values, ExitsOf(placed.Values)
{
  0 <= x < |tm.area| && tm.width > 0 && IsExit(tm.area[x]) && EndsAreRooms(tm, x) ==> ExitJoined(tm, placed, x)
}

/**
 * Exit `q` of the room at cell `k` is one of the two exits joining the rooms
 * at the masked ends of some exit cell: at the start, named after the
 * direction between them and leading to the end, or at the end, named
 * after the inverse and leading back.
 */
ghost predicate ExitFromCell(tm: TextMap, placed: map<int, Room>, k: int, q: int)
  reads placed.Values, ExitsOf(placed.Values)
{
  exists x, l :: 0 <= x < |tm.area| && tm.width > 0 && IsExit(tm.area[x]) &&
    IsLinkChoice(MaskedExitEnds(tm, x), tm.width, l) && k in placed && l.start in placed && l.end in placed &&
    ((l.start == k && ExitTo(placed[k], q, placed[l.end], l.direction)) ||
     (l.end == k && ExitTo(placed[k], q, placed[l.start], InvertDir(l.direction))))
}

/**
 * The exits joining `l` gives the room of cell `k`, when the cells in
 * `rooms` hold rooms: one for each end of `l` at `k`, if `l` joins.
 */
function LinkShare(l: Link, rooms: set<int>, k: int): nat
{
  if l.start in rooms && l.end in rooms && l.direction != BadDir
  then (if l.start == k then 1 else 0) + (if l.end == k then 1 else 0)
  else 0
}

/** The exits joining every link of `links` gives the room of cell `k`. */
function LinkDegree(links: seq<Link>, rooms: set<int>, k: int): nat
{
  if links == [] then 0
  else LinkDegree(links[..|links| - 1], rooms, k) + LinkShare(links[|links| - 1], rooms, k)
}

/** The cells of the map that hold rooms. */
ghost function RoomCells(tm: TextMap): set<int>
{
  set x | 0 <= x < |tm.area| && IsRoom(tm.area[x])
}

/** Exit cell `x` has two masked ends, both rooms, one of them at cell `k`. */
ghost predicate JoinsCell(tm: TextMap, x: int, k: int)
{
  0 <= x < |tm.area| && tm.width > 0 && IsExit(tm.area[x]) && EndsAreRooms(tm, x) && k in MaskedExitEnds(tm, x).Values
}

/** The number of exit cells before `n` that join the room of cell `k` to another room. */
ghost function CellDegree(tm: TextMap, k: int, n: int): nat
  decreases n
{
  if n <= 0 then 0 else CellDegree(tm, k, n - 1) + (if JoinsCell(tm, n - 1, k) then 1 else 0)
}

/** Joining `links` gives each room cell one exit per exit cell before `i` that joins it. */
ghost predicate DegreesFromCells(tm: TextMap, links: seq<Link>, i: int)
{
  forall k :: LinkDegree(links, RoomCells(tm), k) == CellDegree(tm, k, i)
}

/**
 * A link recorded by exit cell `x` joins two distinct cells, so it gives
 * the room of cell `k` one exit exactly when `x` joins `k` to another room.
 */
lemma ShareOfCell(tm: TextMap, x: int, l: Link, k: int)
  requires Rectangular(tm) && RecordedBy(tm, x, l)
  ensures LinkShare(l, RoomCells(tm), k) == if JoinsCell(tm, x, k) then 1 else 0
{
  LinkEndsApart(tm, x, l);
  var ends := MaskedExitEnds(tm, x);
  var a, b :| a in ends && b in ends && a != b && l.start == ends[a] && l.end == ends[b];
  TwoEnds(tm.area, ends, a, b, k);
}

/** A map with two keys `a` and `b` holds the values at `a` and `b`, and no others. */
lemma TwoEnds(area: seq<string>, ends: map<Direction, int>, a: Direction, b: Direction, k: int)
  requires a in ends && b in ends && a != b && |ends| == 2
  ensures k in ends.Values <==> k == ends[a] || k == ends[b]
  ensures (forall d :: d in ends ==> 0 <= ends[d] < |area| && IsRoom(area[ends[d]])) <==>
          (0 <= ends[a] < |area| && IsRoom(area[ends[a]]) && 0 <= ends[b] < |area| && IsRoom(area[ends[b]]))
{
  assert |ends.Keys - {a, b}| == 0;
  assert ends.Keys == {a, b} by {
    assert ends.Keys - {a, b} == {};
  }
}

/** A link recorded by an exit cell joins two distinct cells of the map, in a cardinal direction. */
lemma LinkEndsApart(tm: TextMap, x: int, l: Link)
  requires Rectangular(tm) && RecordedBy(tm, x, l)
  ensures 0 <= l.start < |tm.area| && 0 <= l.end < |tm.area| && l.start != l.end && l.direction != BadDir
{
  MaskedLinkAdjacent(tm, x, l);
}

/** The scan of cell `i` keeps the count of exits each room cell will get. */
/** The link ends at `k` among the first `i + 1` links: those among the first `i`, and those of link `i`. */
lemma DegreeSnoc(links: seq<Link>, i: int, rooms: set<int>, k: int)
  requires 0 <= i < |links|
  ensures LinkDegree(links[..i + 1], rooms, k) == LinkDegree(links[..i], rooms, k) + LinkShare(links[i], rooms, k)
{
  assert links[..i + 1][..i] == links[..i];
}

/** A cell that is not an exit joins no room. */
lemma DegreeNoExit(tm: TextMap, i: int, links: seq<Link>)
  requires 0 <= i < |tm.area| && !IsExit(tm.area[i]) && DegreesFromCells(tm, links, i)
  ensures DegreesFromCells(tm, links, i + 1)
{
}

lemma DegreeStep(tm: TextMap, i: int, before: seq<Link>, after: seq<Link>)
  requires Rectangular(tm) && 0 <= i < |tm.area|
  requires ScanStep(tm, i, before, after) && DegreesFromCells(tm, before, i)
  ensures DegreesFromCells(tm, after, i + 1)
{
  forall k
    ensures LinkDegree(after, RoomCells(tm), k) == CellDegree(tm, k, i + 1)
  {
    if after != before {
      assert after[..|after| - 1] == before;
      ShareOfCell(tm, i, after[|before|], k);
    }
  }
}

/**
 * The fields `newGenericRoom` sets and `buildRooms` never changes: the
 * placeholder description, no commands and no contents.
 */
predicate GenericRoom(r: Room)
  reads r`description, r`commands, r`contents
{
  r.description == "This is a boring generic room." && r.commands == [] && r.contents == []
}

/** Both masked ends of exit cell `x` hold rooms. */
predicate EndsAreRooms(tm: TextMap, x: int)
  requires 0 <= x < |tm.area| && tm.width > 0
{
  var ends := MaskedExitEnds(tm, x);
  |ends| == 2 && forall d :: d in ends ==> 0 <= ends[d] < |tm.area| && IsRoom(tm.area[ends[d]])
}

/**
 * `buildRooms`: builds a room for every room cell, records a link for every
 * exit cell whose two (edge-masked) ends are on the map, joins the links
 * whose ends are rooms and returns the rooms. `placed` maps each room cell
 * to its room.
 */
method BuildRooms(tm: TextMap) returns (rooms: seq<Room>, ghost placed: map<int, Room>)
  requires Rectangular(tm)
  ensures forall i :: i in placed <==> 0 <= i < |tm.area| && IsRoom(tm.area[i])
  ensures forall i :: i in placed ==> fresh(placed[i]) && placed[i].name == tm.area[i]
  ensures forall i :: i in placed ==> GenericRoom(placed[i])
  ensures forall i, j :: i in placed && j in placed && i != j ==> placed[i] != placed[j]
  ensures |rooms| == |placed| && forall r :: r in rooms <==> r in placed.Values
  ensures forall k, k' :: 0 <= k < k' < |rooms| ==> rooms[k] != rooms[k']
  ensures Symmetric(placed.Values) && CardinallyNamed(placed.Values)
  ensures forall x :: ExitCellJoined(tm, placed, x)
  ensures forall k, q :: k in placed && 0 <= q < |placed[k].exits| ==> ExitFromCell(tm, placed, k, q)
  ensures forall k :: k in placed ==> |placed[k].exits| == CellDegree(tm, k, |tm.area|)
{
  var mw := new MapWorker(tm);
  ghost var linkOf, cellOf := mw.BuildCells();
  ghost var order;
  rooms, order := mw.GetRooms();
  mw.JoinLinks();
  mw.ExitsJoined(linkOf);
  mw.ExitsFromCells(cellOf);
  placed := mw.completedRooms;
  ListedOnce(placed, rooms, order);
}

/** On a map without exit cells, `buildRooms` returns rooms without exits. */
method BuildRoomsWithoutExitCells(tm: TextMap) returns (rooms: seq<Room>)
  requires Rectangular(tm) && forall x :: 0 <= x < |tm.area| ==> !IsExit(tm.area[x])
  ensures forall r :: r in rooms ==> r.exits == []
{
  ghost var placed;
  rooms, placed := BuildRooms(tm);
  forall r | r in rooms
    ensures r.exits == []
  {
    var m := placed;
    assert (forall k :: k in m ==> m[k] != r) ==> r !in m.Values;
    var k :| k in placed && placed[k] == r;
    assert !ExitFromCell(tm, placed, k, 0);
  }
}

/** On the one-row map `A-B`, `buildRooms` gives each of the two rooms exactly one exit. */
method BuildRoomsCorridor() returns (rooms: seq<Room>)
  ensures |rooms| == 2 && forall r :: r in rooms ==> |r.exits| == 1
{
  var tm := TextMap(3, 1, ["A", "-", "B"]);
  ghost var placed;
  rooms, placed := BuildRooms(tm);
  CorridorDegrees(tm);
  CorridorRooms(tm, placed);
  forall r | r in rooms
    ensures |r.exits| == 1
  {
    var k :| k in placed && placed[k] == r;
  }
}

/** In `A-B` the room cells are 0 and 2. */
lemma CorridorRooms(tm: TextMap, placed: map<int, Room>)
  requires tm == TextMap(3, 1, ["A", "-", "B"])
  requires forall i :: i in placed <==> 0 <= i < |tm.area| && IsRoom(tm.area[i])
  ensures placed.Keys == {0, 2} && |placed| == 2
{
  assert IsRoom(tm.area[0]) && !IsRoom(tm.area[1]) && IsRoom(tm.area[2]);
  assert placed.Keys == {0, 2} by {
    forall i
      ensures i in placed <==> i == 0 || i == 2
    {
    }
  }
  assert |placed.Keys| == |{0, 2}|;
}

/** In `A-B` the corridor joins cell 0 and cell 2, and nothing else joins them. */
lemma CorridorDegrees(tm: TextMap)
  requires tm == TextMap(3, 1, ["A", "-", "B"])
  ensures CellDegree(tm, 0, 3) == 1 && CellDegree(tm, 2, 3) == 1
{
  MaskedRowShape(tm, 1);
  var ends := MaskedExitEnds(tm, 1);
  assert ends == map[East := 2, West := 0];
  assert EndsAreRooms(tm, 1);
  assert !IsExit(tm.area[0]) && !IsExit(tm.area[2]);
}
