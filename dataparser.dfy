/**
 * The wall-map parser of src/dataparser.rs: text lines over the alphabet
 * '0'/'1' become a column-major boolean matrix, `walls[x][y]` being the
 * character at position `x` of line `y`. Reading a line can fail; the
 * reader is modelled as the sequence of what each read returned.
 */
module DataParser {
  import opened Wrappers

  /** What one read of the line iterator returned: a line, or an I/O error with its message. */
  datatype LineRead = Line(text: string) | IoFailure(msg: string)

  /** The parser's errors: malformed wall data (carrying the resource path), or an I/O error. */
  datatype DataParserErr = InvalidWallData(path: string) | Io(msg: string)

  /** The one variant of the game engine's error type that parser errors become. */
  datatype GameError = ResourceLoadError(msg: string)

  /** The conversion of a parser error into a game error: both kinds become a resource-load error. */
  function ToGameError(err: DataParserErr): (g: GameError)
    ensures err.InvalidWallData? ==> g == ResourceLoadError(err.path)
    ensures err.Io? ==> g == ResourceLoadError(err.msg)
  {
    match err
    case InvalidWallData(path) => ResourceLoadError(path)
    case Io(msg) => ResourceLoadError(msg)
  }

  predicate IsWallChar(c: char) {
    c == '0' || c == '1'
  }

  /** The error that line `y` makes the parser return, if any. */
  function LineError(line: LineRead, y: nat, path: string, maxW: nat, maxH: nat): Option<DataParserErr> {
    if y >= maxH then Some(InvalidWallData(path))
    else
      match line
      case IoFailure(msg) => Some(Io(msg))
      case Line(text) =>
        if |text| > maxW || exists i :: 0 <= i < |text| && !IsWallChar(text[i]) then Some(InvalidWallData(path))
        else None
  }

  /** The error of the first line from index `from` on that has one. */
  function FirstError(lines: seq<LineRead>, from: nat, path: string, maxW: nat, maxH: nat): (r: Option<DataParserErr>)
    requires from <= |lines|
    ensures r.None? <==> forall y :: from <= y < |lines| ==> LineError(lines[y], y, path, maxW, maxH).None?
    decreases |lines| - from
  {
    if from == |lines| then None
    else if LineError(lines[from], from, path, maxW, maxH).Some? then LineError(lines[from], from, path, maxW, maxH)
    else FirstError(lines, from + 1, path, maxW, maxH)
  }

  /** The error reported is that of the first line with one. */
  lemma {:induction false} FirstErrorIs(lines: seq<LineRead>, from: nat, y: nat, path: string, maxW: nat, maxH: nat)
    requires from <= y < |lines|
    requires forall y' :: from <= y' < y ==> LineError(lines[y'], y', path, maxW, maxH).None?
    requires LineError(lines[y], y, path, maxW, maxH).Some?
    ensures FirstError(lines, from, path, maxW, maxH) == LineError(lines[y], y, path, maxW, maxH)
    decreases y - from
  {
    if from < y {
      FirstErrorIs(lines, from + 1, y, path, maxW, maxH);
    }
  }

  /** Cell `(x, y)` is a wall: line `y` was read and has a '1' at position `x`. */
  predicate WallAt(lines: seq<LineRead>, x: nat, y: nat) {
    y < |lines| && lines[y].Line? && x < |lines[y].text| && lines[y].text[x] == '1'
  }

  /** `walls` has `maxW` columns of `maxH` cells. */
  predicate Shaped(walls: seq<seq<bool>>, maxW: nat, maxH: nat) {
    |walls| == maxW && forall x :: 0 <= x < maxW ==> |walls[x]| == maxH
  }

  /**
   * parse_walls_from_bufread: `Ok` exactly when no line has an error, and
   * then the matrix holds a wall exactly where a '1' was read, every cell of
   * a short or missing line staying open; otherwise the error of the first
   * line that has one.
   */
  method ParseWalls(lines: seq<LineRead>, path: string, maxW: nat, maxH: nat)
    returns (r: Result<seq<seq<bool>>, DataParserErr>)
    ensures r.Ok? <==> FirstError(lines, 0, path, maxW, maxH).None?
    ensures r.Err? ==> FirstError(lines, 0, path, maxW, maxH) == Some(r.error)
    ensures r.Ok? ==> Shaped(r.value, maxW, maxH)
    ensures r.Ok? ==> forall x, y :: 0 <= x < maxW && 0 <= y < maxH ==> r.value[x][y] == WallAt(lines, x, y)
  {
    var walls := seq(maxW, _ => seq(maxH, _ => false));
    for y := 0 to |lines|
      invariant Shaped(walls, maxW, maxH)
      invariant forall y' :: 0 <= y' < y ==> LineError(lines[y'], y', path, maxW, maxH).None?
      invariant forall x, y' :: 0 <= x < maxW && 0 <= y' < maxH ==> walls[x][y'] == (y' < y && WallAt(lines, x, y'))
    {
      if y >= maxH {
        FirstErrorIs(lines, 0, y, path, maxW, maxH);
        return Err(InvalidWallData(path));
      }
      if lines[y].IoFailure? {
        FirstErrorIs(lines, 0, y, path, maxW, maxH);
        return Err(Io(lines[y].msg));
      }
      var line := lines[y].text;
      for x := 0 to |line|
        invariant Shaped(walls, maxW, maxH)
        invariant forall i :: 0 <= i < x ==> i < maxW && IsWallChar(line[i])
        invariant forall x', y' :: 0 <= x' < maxW && 0 <= y' < maxH ==>
                    walls[x'][y'] == (if y' == y then x' < x && line[x'] == '1' else y' < y && WallAt(lines, x', y'))
      {
        if x >= maxW {
          FirstErrorIs(lines, 0, y, path, maxW, maxH);
          return Err(InvalidWallData(path));
        }
        match line[x]
        case '0' =>
          walls := walls[x := walls[x][y := false]];
        case '1' =>
          walls := walls[x := walls[x][y := true]];
        case _ =>
          FirstErrorIs(lines, 0, y, path, maxW, maxH);
          return Err(InvalidWallData(path));
      }
      assert |line| <= maxW by {
        if |line| > 0 {
          assert IsWallChar(line[|line| - 1]) && |line| - 1 < maxW;
        }
      }
      assert LineError(lines[y], y, path, maxW, maxH).None?;
    }
    return Ok(walls);
  }

  /** The 4 by 4 map of the parser's unit test. */
  const Fixture: seq<LineRead> := [Line("0000"), Line("0010"), Line("0100"), Line("0000")]

  /** The unit test's map parses, and its only walls are at (2, 1) and (1, 2). */
  lemma FixtureWalls()
    ensures FirstError(Fixture, 0, "", 4, 4).None?
    ensures forall x, y :: 0 <= x < 4 && 0 <= y < 4 ==> (WallAt(Fixture, x, y) <==> (x, y) == (2, 1) || (x, y) == (1, 2))
  {
    forall y | 0 <= y < 4 ensures LineError(Fixture[y], y, "", 4, 4).None? {
      var t := Fixture[y].text;
      assert forall i :: 0 <= i < |t| ==> IsWallChar(t[i]);
    }
  }
}
