/**
 * Cardinal direction bit flags (directions.go). Go declares
 * `type Direction byte`, so a direction is a value in 0..255.
 */
newtype Direction = x: int | 0 <= x < 256

const BadDir: Direction := 0
const North: Direction := 1
const East: Direction := 2
const South: Direction := 4
const West: Direction := 8
const DirMask: Direction := 15

/** Exactly one of the four cardinal flags. */
predicate IsCardinal(d: Direction)
{
  d == North || d == East || d == South || d == West
}

/** The bit test `flag&d == d` of Go, for a single-bit flag d. */
predicate Has(flag: Direction, d: Direction)
  requires IsCardinal(d)
{
  var f := flag as int;
  if d == North then f % 2 == 1
  else if d == East then (f / 2) % 2 == 1
  else if d == South then (f / 4) % 2 == 1
  else (f / 8) % 2 == 1
}

/** The flag holding exactly the cardinals whose argument is true. */
function Compose(n: bool, e: bool, s: bool, w: bool): (r: Direction)
  ensures r <= DirMask
  ensures Has(r, North) == n && Has(r, East) == e && Has(r, South) == s && Has(r, West) == w
{
  (if n then North else BadDir) + (if e then East else BadDir)
  + (if s then South else BadDir) + (if w then West else BadDir)
}

function DirToString(dir: Direction): (s: string)
  ensures s != "NaD" <==> IsCardinal(dir)
  ensures |s| > 0
{
  if dir == North then "North"
  else if dir == East then "East"
  else if dir == South then "South"
  else if dir == West then "West"
  else "NaD"
}

/** The full name and its first letter, the two aliases of an exit. */
function DirToCommandStrings(dir: Direction): (r: seq<string>)
  ensures |r| == 2 && r[0] == DirToString(dir) && r[1] == [r[0][0]]
{
  var full := DirToString(dir);
  [full, [full[0]]]
}

function InvertDir(dir: Direction): (r: Direction)
  ensures IsCardinal(dir) <==> IsCardinal(r)
  ensures !IsCardinal(dir) ==> r == BadDir
{
  if dir == North then South
  else if dir == East then West
  else if dir == South then North
  else if dir == West then East
  else BadDir
}

/** InvertDir is an involution on the cardinals and never a fixed point. */
lemma InvertDirInvolution(d: Direction)
  requires IsCardinal(d)
  ensures InvertDir(InvertDir(d)) == d && InvertDir(d) != d
{
}

/** The four cardinals have distinct full names and distinct one-letter aliases. */
lemma CommandStringsDistinct(d1: Direction, d2: Direction)
  requires IsCardinal(d1) && IsCardinal(d2) && d1 != d2
  ensures DirToCommandStrings(d1)[0] != DirToCommandStrings(d2)[0]
  ensures DirToCommandStrings(d1)[1] != DirToCommandStrings(d2)[1]
{
}

/**
 * The index one cell away from `index` in cardinal direction `d` on a grid
 * of the given width, before any edge check.
 */
function Neighbour(width: int, index: int, d: Direction): int
  requires IsCardinal(d)
{
  if d == North then index - width
  else if d == East then index + 1
  else if d == South then index + width
  else index - 1
}

/**
 * The direction to i2 from i1. Go's `%` truncates, Dafny's is Euclidean,
 * but for a positive divisor both are zero exactly on multiples, which is
 * all the first test asks. The absolute difference Go computes into `diff`
 * is never used: the second test compares the signed difference.
 */
function CardinalDirBetween(i1: int, i2: int, width: int): (r: Direction)
  requires width > 0
  ensures r == BadDir || IsCardinal(r)
  ensures r == BadDir <==> (i1 - i2) % width != 0 && i1 - i2 >= width
{
  if (i1 - i2) % width == 0 then
    (if i1 > i2 then North else South)
  else if i1 - i2 < width then
    (if i1 > i2 then West else East)
  else BadDir
}

/**
 * On a grid at least two cells wide, the direction between a cell and its
 * neighbour in direction d is d, and the way back is InvertDir(d).
 */
lemma DirBetweenNeighbours(width: int, index: int, d: Direction)
  requires width >= 2 && IsCardinal(d)
  ensures CardinalDirBetween(index, Neighbour(width, index, d), width) == d
  ensures CardinalDirBetween(Neighbour(width, index, d), index, width) == InvertDir(d)
{
  assert width % width == 0 && (-width) % width == 0;
  assert 1 % width == 1 && (-1) % width == width - 1;
}

/**
 * On a one-column grid every East/West step is also a whole row, so the
 * direction between horizontal neighbours comes out vertical.
 */
lemma DirBetweenOnOneColumn(index: int)
  ensures CardinalDirBetween(index, index + 1, 1) == South
  ensures CardinalDirBetween(index + 1, index, 1) == North
{
}

/**
 * The neighbour index for every cardinal flag set in dirFlag, keyed by that
 * flag (Go fills a map with four independent ifs).
 */
function FlagToIndicies(width: int, index: int, dirFlag: Direction): (m: map<Direction, int>)
  ensures forall d :: d in m <==> IsCardinal(d) && Has(dirFlag, d)
  ensures forall d :: d in m ==> m[d] == Neighbour(width, index, d)
{
  var n := if Has(dirFlag, North) then map[North := index - width] else map[];
  var e := if Has(dirFlag, East) then n[East := index + 1] else n;
  var s := if Has(dirFlag, South) then e[South := index + width] else e;
  if Has(dirFlag, West) then s[West := index - 1] else s
}

/** The neighbour in the single direction `dir`, or an error for anything else. */
function FlagToIndex(width: int, index: int, dir: Direction): (r: Result<int>)
  ensures r.Ok? <==> IsCardinal(dir)
  ensures r.Ok? ==> r.value == Neighbour(width, index, dir)
  ensures r.Err? ==> r.msg == "No index in that direction."
{
  var m := FlagToIndicies(width, index, dir);
  if dir in m then Ok(m[dir]) else Err("No index in that direction.")
}
