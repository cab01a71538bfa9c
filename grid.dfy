/** The puzzle grid as the content scripts find it in the page: the shape filter on
    candidate elements, the clickable cells, and the `grid-area` placement of a cell
    read back as a row and a column. */
module Grid {
  import opened Text
  import opened Numbers
  import opened Wrappers
  import opened Scan

  /** A cell `div` inside a grid, as its inline style and attributes show it. An absent
      attribute or style property reads as the empty string. */
  datatype Cell = Cell(tabindex: string, gridArea: string, background: string)

  /** An element of the page in document order: its tag and class attribute, the computed
      `display`, `grid-template-columns` and `grid-template-rows`, the number of its
      element children, and the cell `div`s below it. */
  datatype Element = Element(
    tag: string, className: string,
    display: string, columns: string, rows: string,
    childCount: nat, cells: seq<Cell>)

  /** A placement as read back from `grid-area`. */
  datatype Coord = Coord(row: Num, col: Num)

  /** The shape test shared by `findPuzzleGrid` and `getGridSize`: a grid or inline grid
      with non-empty templates, at least 4 column tokens and 4 row tokens, and at least 16
      children. */
  predicate IsPuzzleGrid(e: Element) {
    (e.display == "grid" || e.display == "inline-grid") &&
    e.columns != [] && e.rows != [] &&
    e.childCount >= 16 && TokenCount(e.columns) >= 4 && TokenCount(e.rows) >= 4
  }

  /** A `div` that passes the shape test. */
  predicate IsGridDiv(e: Element) {
    e.tag == "div" && IsPuzzleGrid(e)
  }

  /** `findPuzzleGrid`: the position of the first `div` in document order that passes
      the shape test, or `None` (`null`) when none does. */
  function FindPuzzleGrid(es: seq<Element>): (r: Option<nat>)
    ensures r.None? <==> forall j :: 0 <= j < |es| ==> !IsGridDiv(es[j])
    ensures r.Some? ==> r.value < |es| && IsGridDiv(es[r.value]) &&
                        forall j :: 0 <= j < r.value ==> !IsGridDiv(es[j])
  {
    First(es, IsGridDiv)
  }

  /** A grid template with fewer than four tokens never qualifies, however many children
      the element has. */
  lemma NarrowTemplateRejected(e: Element)
    requires TokenCount(e.columns) < 4 || TokenCount(e.rows) < 4
    ensures !IsPuzzleGrid(e)
  {
  }

  /** `querySelectorAll('div[tabindex="0"]')` on a grid: the cells that take clicks. */
  function Clickable(cells: seq<Cell>): (r: seq<Cell>)
    ensures |r| <= |cells|
    ensures forall k :: 0 <= k < |r| ==> r[k].tabindex == "0" && r[k] in cells
    ensures forall c :: c in cells && c.tabindex == "0" ==> c in r
  {
    if cells == [] then []
    else if cells[0].tabindex == "0" then [cells[0]] + Clickable(cells[1..])
    else Clickable(cells[1..])
  }

  /** The selection keeps document order: selecting from a concatenation is selecting
      from each half, and a single cell is kept exactly when its `tabindex` is `"0"`. */
  lemma {:induction false} ClickableAppend(a: seq<Cell>, b: seq<Cell>)
    ensures Clickable(a + b) == Clickable(a) + Clickable(b)
    ensures forall c :: Clickable([c]) == (if c.tabindex == "0" then [c] else [])
    decreases |a|
  {
    if a != [] {
      assert (a + b)[1..] == a[1..] + b;
      ClickableAppend(a[1..], b);
    } else {
      assert a + b == b;
    }
    forall c
      ensures Clickable([c]) == (if c.tabindex == "0" then [c] else [])
    {
      assert [c][1..] == [];
    }
  }

  /** `gridArea.split('/').map(s => parseInt(s.trim()))`, destructured into its first two
      values; the second is `undefined` exactly when the text has no `/`. */
  function ParseGridArea(area: string): Coord {
    var parts := SplitOn(area, '/');
    Coord(ParseInt(Trim(parts[0])), if |parts| > 1 then ParseInt(Trim(parts[1])) else Undefined)
  }

  /** The row is always a number or `NaN`; the column is `undefined` exactly when the
      text has no `/`. */
  lemma ParseGridAreaUndefined(area: string)
    ensures !ParseGridArea(area).row.Undefined?
    ensures ParseGridArea(area).col.Undefined? <==> '/' !in area
  {
    SplitOnOnePart(area, '/');
  }

  /** The placement text the application writes for a cell. */
  function PlacementText(row: int, col: int): string {
    Show(row) + " / " + Show(col)
  }

  /** The decimal text of an integer holds no `/`. */
  lemma ShowNoSlash(n: int)
    ensures '/' !in Show(n)
  {
    var d := ShowNat(if n < 0 then -n else n);
    assert forall i :: 0 <= i < |d| ==> d[i] != '/';
  }

  lemma PlacementParts(row: int, col: int)
    ensures SplitOn(PlacementText(row, col), '/') == [Show(row) + " ", " " + Show(col)]
  {
    var a := Show(row) + " ";
    var b := " " + Show(col);
    ShowNoSlash(row);
    ShowNoSlash(col);
    assert '/' !in a && '/' !in b;
    assert PlacementText(row, col) == a + ['/'] + b;
    SplitOnAt(a, b, '/');
    SplitOnWithout(b, '/');
  }

  lemma TrimShowPadded(n: int)
    ensures Trim(Show(n) + " ") == Show(n) && Trim(" " + Show(n)) == Show(n)
  {
    ShowUnpadded(n);
    TrimAround(Show(n));
  }

  /** The placement text `"<row> / <col>"` reads back as that row and column. */
  lemma GridAreaRoundTrip(row: int, col: int)
    ensures ParseGridArea(PlacementText(row, col)) == Coord(Int(row), Int(col))
  {
    PlacementParts(row, col);
    TrimShowPadded(row);
    TrimShowPadded(col);
    ParseShow(row);
    ParseShow(col);
  }

  /** A placement without a `/`, such as `"5"`, reads back as that row and an
      `undefined` column. */
  lemma OnePartGridArea(row: int)
    ensures ParseGridArea(Show(row)) == Coord(Int(row), Undefined)
  {
    assert forall i :: 0 <= i < |Show(row)| ==> Show(row)[i] != '/';
    SplitOnWithout(Show(row), '/');
    ShowUnpadded(row);
    TrimPadded([], Show(row), []);
    assert [] + Show(row) + [] == Show(row);
    ParseShow(row);
  }

  /** The lookup test of `solvePuzzle`: the cell has a placement and both of its read-back
      values are `===` to the target coordinates. */
  predicate IsAt(c: Cell, target: Coord) {
    c.gridArea != [] &&
    StrictEq(ParseGridArea(c.gridArea).row, target.row) &&
    StrictEq(ParseGridArea(c.gridArea).col, target.col)
  }

  /** `Array.from(cells).find(...)`: the position of the first cell placed at `target`. */
  function FindCellFrom(cells: seq<Cell>, target: Coord, i: nat): Option<nat>
    requires i <= |cells|
    decreases |cells| - i
  {
    if i == |cells| then None
    else if IsAt(cells[i], target) then Some(i)
    else FindCellFrom(cells, target, i + 1)
  }

  /** The lookup is the first-match scan with the placement test. */
  lemma {:induction false} FindCellFromIsFirst(cells: seq<Cell>, target: Coord, i: nat)
    requires i <= |cells|
    ensures FindCellFrom(cells, target, i) == FirstFrom(cells, c => IsAt(c, target), i)
    decreases |cells| - i
  {
    if i < |cells| {
      FindCellFromIsFirst(cells, target, i + 1);
      if IsAt(cells[i], target) {
        assert FindCellFrom(cells, target, i) == Some(i);
      } else {
        assert FindCellFrom(cells, target, i) == FindCellFrom(cells, target, i + 1);
      }
    }
  }

  /** The lookup of `solvePuzzle`: a position it finds is a cell of the grid, and
      `FindCellSpec` says which cell. */
  function FindCell(cells: seq<Cell>, target: Coord): (r: Option<nat>)
    ensures r.Some? ==> r.value < |cells|
  {
    FindCellFromIsFirst(cells, target, 0);
    FindCellFrom(cells, target, 0)
  }

  /** The lookup finds the first cell placed at the target, and fails only when no cell
      is placed there. */
  lemma FindCellSpec(cells: seq<Cell>, target: Coord)
    ensures FindCell(cells, target).None? <==> forall k :: 0 <= k < |cells| ==> !IsAt(cells[k], target)
    ensures FindCell(cells, target).Some? ==>
      var k := FindCell(cells, target).value;
      k < |cells| && IsAt(cells[k], target) && forall j :: 0 <= j < k ==> !IsAt(cells[j], target)
  {
    FindCellFromIsFirst(cells, target, 0);
    var p := c => IsAt(c, target);
    assert forall k :: 0 <= k < |cells| ==> (p(cells[k]) <==> IsAt(cells[k], target));
  }

  /** A target with an unreadable coordinate (`NaN`, or the `null` that a recorded
      `NaN` becomes) is never found. */
  lemma UnreadableTargetNotFound(cells: seq<Cell>, target: Coord)
    requires target.row.NaN? || target.col.NaN?
    ensures FindCell(cells, target).None?
  {
    FindCellSpec(cells, target);
  }

  /** A cell whose placement text is `"<row> / <col>"` is found at those coordinates
      unless an earlier cell has the same placement. */
  lemma PlacedCellFound(cells: seq<Cell>, k: nat, row: int, col: int)
    requires k < |cells| && cells[k].gridArea == PlacementText(row, col)
    ensures FindCell(cells, Coord(Int(row), Int(col))).Some?
    ensures FindCell(cells, Coord(Int(row), Int(col))).value <= k
  {
    GridAreaRoundTrip(row, col);
    assert IsAt(cells[k], Coord(Int(row), Int(col)));
    FindCellSpec(cells, Coord(Int(row), Int(col)));
  }

  /** A cell whose placement text is one number, `"5"`, is found at that row and an
      `undefined` column, since `undefined === undefined`. */
  lemma OnePartCellFound(cells: seq<Cell>, k: nat, row: int)
    requires k < |cells| && cells[k].gridArea == Show(row)
    ensures FindCell(cells, Coord(Int(row), Undefined)).Some?
    ensures FindCell(cells, Coord(Int(row), Undefined)).value <= k
  {
    OnePartGridArea(row);
    assert IsAt(cells[k], Coord(Int(row), Undefined));
    FindCellSpec(cells, Coord(Int(row), Undefined));
  }
}
