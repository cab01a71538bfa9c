/** The recorder content script (`recorder/content.js`): it reads the puzzle's name and
    identifier from the headings, the grid's size from its templates, and the placements
    of the cells painted as part of the solution, and packs them into a recording that
    the solver replays. */
module Recorder {
  import opened Text
  import opened Wrappers
  import opened Scan
  import opened Numbers
  import opened PuzzleIds
  import opened Grid

  // ---------------------------------------------------------------- headings

  predicate IsNamed(heading: string) {
    !IsGeneric(Trim(heading))
  }

  /** The first `h1`/`h2` whose trimmed text is neither empty nor generic. */
  function NamedHeading(headings: seq<string>): Option<nat> {
    First(headings, IsNamed)
  }

  /** `getPuzzleId` of the recorder: the normalised first named heading, or `None`. */
  function RecorderPuzzleId(headings: seq<string>): (r: Option<string>)
    ensures r.None? <==> forall k :: 0 <= k < |headings| ==> !IsNamed(headings[k])
    ensures r.Some? ==> IsId(r.value)
  {
    match NamedHeading(headings)
    case None => None
    case Some(k) => Some(Normalize(Trim(headings[k])))
  }

  const UnknownPuzzle: string := "Unknown Puzzle"

  /** `getPuzzleName`: the trimmed first named heading, or `'Unknown Puzzle'`. */
  function GetPuzzleName(headings: seq<string>): (r: string)
    ensures NamedHeading(headings).None? ==> r == UnknownPuzzle
    ensures NamedHeading(headings).Some? ==>
      r == Trim(headings[NamedHeading(headings).value]) && !IsGeneric(r)
  {
    match NamedHeading(headings)
    case None => UnknownPuzzle
    case Some(k) => Trim(headings[k])
  }

  /** The recorder and the solver compute the same identifier from the same headings. */
  lemma RecorderIdAgrees(headings: seq<string>)
    ensures RecorderPuzzleId(headings) == GetPuzzleId(headings)
  {
    match NamedHeading(headings)
    case None =>
    case Some(k) => GetPuzzleIdIsFirstTitle(headings, k);
  }

  /** Whenever there is an identifier, it is the normalised puzzle name; when there is
      none, the name is the default. */
  lemma IdIsNormalizedName(headings: seq<string>)
    ensures RecorderPuzzleId(headings).Some? ==> RecorderPuzzleId(headings).value == Normalize(GetPuzzleName(headings))
    ensures RecorderPuzzleId(headings).None? ==> GetPuzzleName(headings) == UnknownPuzzle
  {
  }

  // ---------------------------------------------------------------- grid size

  /** An `h2` and the elements below its parent, in document order. */
  datatype Heading2 = Heading2(text: string, parentElements: seq<Element>)

  /** What the recorder reads: the `h1`/`h2` texts, the `h2`s with what lies below their
      parents, and every element of the body in document order. */
  datatype RecorderPage = RecorderPage(headings: seq<string>, h2s: seq<Heading2>, elements: seq<Element>)

  predicate IsPlaygroundHeading(h: Heading2) {
    Contains(h.text, "Playground")
  }

  /** Where `getGridSize` searches: below the parent of the first `h2` that mentions the
      playground, or else the whole body. */
  function SearchRoot(p: RecorderPage): seq<Element> {
    match First(p.h2s, IsPlaygroundHeading)
    case None => p.elements
    case Some(k) => p.h2s[k].parentElements
  }

  /** `{ rows, cols }`: the numbers of tokens of the two templates. */
  function SizeOf(e: Element): (nat, nat) {
    (TokenCount(e.rows), TokenCount(e.columns))
  }

  const GridSizeNotFound: string := "Puzzle grid not found. Make sure you are on a puzzle page with the grid visible."

  /** `getGridSize`: the token counts of the rows and columns templates of the first `div`
      below the search root that passes the shape test, or the not-found error. */
  function GridSize(p: RecorderPage): (r: Result<(nat, nat)>)
    ensures r.Failure? <==> forall j :: 0 <= j < |SearchRoot(p)| ==> !IsGridDiv(SearchRoot(p)[j])
    ensures r.Failure? ==> r.error == GridSizeNotFound
    ensures r.Success? ==> r.value.0 >= 4 && r.value.1 >= 4
    ensures r.Success? ==>
      exists j :: 0 <= j < |SearchRoot(p)| && IsGridDiv(SearchRoot(p)[j]) &&
                  (forall i :: 0 <= i < j ==> !IsGridDiv(SearchRoot(p)[i])) && r.value == SizeOf(SearchRoot(p)[j])
  {
    var root := SearchRoot(p);
    match FindPuzzleGrid(root)
    case None => Failure(GridSizeNotFound)
    case Some(g) => Success(SizeOf(root[g]))
  }

  /** The loop of `getGridSize` over the `div`s below the search root, which stops at the
      first that passes the shape test. */
  method GetGridSize(p: RecorderPage) returns (r: Result<(nat, nat)>)
    ensures r == GridSize(p)
  {
    var root := SearchRoot(p);
    var found: Option<nat> := None;
    var i := 0;
    while i < |root|
      invariant 0 <= i <= |root|
      invariant found.None? ==> forall j :: 0 <= j < i ==> !IsGridDiv(root[j])
      invariant found.Some? ==> found == FindPuzzleGrid(root)
      decreases |root| - i, if found.None? then 1 else 0
    {
      if IsGridDiv(root[i]) {
        found := Some(i);
        FirstIs(root, IsGridDiv, i);
        break;
      }
      i := i + 1;
    }
    match found {
      case None =>
        r := Failure(GridSizeNotFound);
      case Some(g) =>
        r := Success(SizeOf(root[g]));
    }
  }

  // ---------------------------------------------------------------- alive cells

  /** A class token of the element's `class` attribute. */
  predicate HasClass(e: Element, c: string) {
    c in SplitWs(e.className)
  }

  predicate IsGridRelative(e: Element) { HasClass(e, "grid") && HasClass(e, "relative") }
  predicate IsGridClass(e: Element) { HasClass(e, "grid") }
  predicate MentionsGrid(e: Element) { Contains(e.className, "grid") }
  predicate IsDisplayGrid(e: Element) { e.tag == "div" && e.display == "grid" && e.columns != [] }

  /** The grid lookup of `getAliveCells`: `.grid.relative`, then `.grid`, then any class
      mentioning `grid`, then the first `div` displayed as a grid with a columns
      template; `None` when all four fail. */
  function FindRecordGrid(es: seq<Element>): (r: Option<nat>)
    ensures r.None? <==> forall j :: 0 <= j < |es| ==>
      !IsGridRelative(es[j]) && !IsGridClass(es[j]) && !MentionsGrid(es[j]) && !IsDisplayGrid(es[j])
    ensures r.Some? ==> r.value < |es|
  {
    match First(es, IsGridRelative)
    case Some(g) => Some(g)
    case None =>
      match First(es, IsGridClass)
      case Some(g) => Some(g)
      case None =>
        match First(es, MentionsGrid)
        case Some(g) => Some(g)
        case None => First(es, IsDisplayGrid)
  }

  /** The four steps of the lookup, in priority order: the first `.grid.relative`
      element when there is one; otherwise the first `.grid`; otherwise the first
      element whose class mentions `grid`; otherwise the first `div` displayed as a
      grid. */
  lemma FindRecordGridPriority(es: seq<Element>)
    ensures var r := FindRecordGrid(es);
      (exists j :: 0 <= j < |es| && IsGridRelative(es[j])) ==>
      r.Some? && IsGridRelative(es[r.value]) && forall j :: 0 <= j < r.value ==> !IsGridRelative(es[j])
    ensures var r := FindRecordGrid(es);
      (forall j :: 0 <= j < |es| ==> !IsGridRelative(es[j])) &&
      (exists j :: 0 <= j < |es| && IsGridClass(es[j])) ==>
      r.Some? && IsGridClass(es[r.value]) && forall j :: 0 <= j < r.value ==> !IsGridClass(es[j])
    ensures var r := FindRecordGrid(es);
      (forall j :: 0 <= j < |es| ==> !IsGridRelative(es[j]) && !IsGridClass(es[j])) &&
      (exists j :: 0 <= j < |es| && MentionsGrid(es[j])) ==>
      r.Some? && MentionsGrid(es[r.value]) && forall j :: 0 <= j < r.value ==> !MentionsGrid(es[j])
    ensures var r := FindRecordGrid(es);
      (forall j :: 0 <= j < |es| ==> !IsGridRelative(es[j]) && !IsGridClass(es[j]) && !MentionsGrid(es[j])) &&
      (exists j :: 0 <= j < |es| && IsDisplayGrid(es[j])) ==>
      r.Some? && IsDisplayGrid(es[r.value]) && forall j :: 0 <= j < r.value ==> !IsDisplayGrid(es[j])
  {
    if First(es, IsGridRelative).None? {
      if First(es, IsGridClass).None? {
        if First(es, MentionsGrid).None? {
          assert FindRecordGrid(es) == First(es, IsDisplayGrid);
        } else {
          assert FindRecordGrid(es) == First(es, MentionsGrid);
        }
      } else {
        assert FindRecordGrid(es) == First(es, IsGridClass);
      }
    } else {
      assert FindRecordGrid(es) == First(es, IsGridRelative);
    }
  }

  const AliveColour: string := "rgb(222, 42, 2)"

  /** A cell recorded as part of the solution: painted in the solution colour, and with a
      placement. */
  predicate IsAlive(c: Cell) {
    c.background == AliveColour && c.gridArea != []
  }

  /** The positions of the recorded cells among `cells`, in document order. */
  function AliveIndices(cells: seq<Cell>): (r: seq<nat>)
    ensures forall j :: 0 <= j < |r| ==> r[j] < |cells| && IsAlive(cells[r[j]])
    ensures forall j, k :: 0 <= j < k < |r| ==> r[j] < r[k]
    ensures |r| <= |cells|
    decreases |cells|
  {
    if cells == [] then []
    else
      var n := |cells| - 1;
      AliveIndices(cells[..n]) + (if IsAlive(cells[n]) then [n] else [])
  }

  /** Every alive cell is recorded. */
  lemma {:induction false} AliveIndicesComplete(cells: seq<Cell>, k: nat)
    requires k < |cells| && IsAlive(cells[k])
    ensures k in AliveIndices(cells)
    decreases |cells|
  {
    var n := |cells| - 1;
    if k < n {
      assert cells[..n][k] == cells[k];
      AliveIndicesComplete(cells[..n], k);
    }
  }

  /** The loop of `getAliveCells` over the clickable cells: each alive cell's placement,
      read as the solver reads it, is pushed in document order. */
  function Recorded(cells: seq<Cell>): (r: seq<Coord>)
    ensures |r| <= |cells|
    decreases |cells|
  {
    if cells == [] then []
    else
      var n := |cells| - 1;
      Recorded(cells[..n]) + (if IsAlive(cells[n]) then [ParseGridArea(cells[n].gridArea)] else [])
  }

  /** One recorded placement per alive cell. */
  lemma {:induction false} RecordedLength(cells: seq<Cell>)
    ensures |Recorded(cells)| == |AliveIndices(cells)|
    decreases |cells|
  {
    if cells != [] {
      RecordedLength(cells[..|cells| - 1]);
    }
  }

  /** The `j`-th recorded placement is that of the `j`-th alive cell. */
  lemma {:induction false} RecordedAt(cells: seq<Cell>, j: nat)
    requires j < |AliveIndices(cells)|
    ensures j < |Recorded(cells)| && Recorded(cells)[j] == ParseGridArea(cells[AliveIndices(cells)[j]].gridArea)
    decreases |cells|
  {
    var n := |cells| - 1;
    var pre := cells[..n];
    RecordedLength(pre);
    RecordedLength(cells);
    if j < |AliveIndices(pre)| {
      RecordedAt(pre, j);
      var k := AliveIndices(pre)[j];
      assert pre[k] == cells[k];
      assert AliveIndices(cells)[j] == k;
      assert Recorded(cells)[j] == Recorded(pre)[j];
    } else {
      assert IsAlive(cells[n]) && AliveIndices(cells)[j] == n;
    }
  }

  /** The recording is the placements of exactly the alive cells, in document order. */
  lemma RecordedIsAlivePlacements(cells: seq<Cell>)
    ensures |Recorded(cells)| == |AliveIndices(cells)|
    ensures forall j :: 0 <= j < |Recorded(cells)| ==>
      Recorded(cells)[j] == ParseGridArea(cells[AliveIndices(cells)[j]].gridArea)
  {
    RecordedLength(cells);
    forall j | 0 <= j < |Recorded(cells)|
      ensures Recorded(cells)[j] == ParseGridArea(cells[AliveIndices(cells)[j]].gridArea)
    {
      RecordedAt(cells, j);
    }
  }

  /** `getAliveCells` from the grid's cells on: the `div[tabindex="0"]` cells are walked
      and the recording grows by one placement per alive cell. */
  method RecordAlive(cells: seq<Cell>) returns (alive: seq<Coord>)
    ensures alive == Recorded(Clickable(cells))
  {
    var cl := Clickable(cells);
    alive := [];
    var i := 0;
    while i < |cl|
      invariant 0 <= i <= |cl|
      invariant alive == Recorded(cl[..i])
      decreases |cl| - i
    {
      assert cl[..i + 1][..i] == cl[..i];
      if IsAlive(cl[i]) {
        alive := alive + [ParseGridArea(cl[i].gridArea)];
      }
      i := i + 1;
    }
    assert cl[..|cl|] == cl;
  }

  /** `getAliveCells`: the recording of the grid found by the lookup, or `'Grid not
      found'`. */
  function AliveCells(es: seq<Element>): (r: Result<seq<Coord>>)
    ensures r.Failure? <==> FindRecordGrid(es).None?
    ensures r.Failure? ==> r.error == "Grid not found"
    ensures r.Success? ==> r.value == Recorded(Clickable(es[FindRecordGrid(es).value].cells))
  {
    match FindRecordGrid(es)
    case None => Failure("Grid not found")
    case Some(g) => Success(Recorded(Clickable(es[g].cells)))
  }

  method GetAliveCells(es: seq<Element>) returns (r: Result<seq<Coord>>)
    ensures r == AliveCells(es)
  {
    var g := FindRecordGrid(es);
    if g.None? {
      r := Failure("Grid not found");
    } else {
      var alive := RecordAlive(es[g.value].cells);
      r := Success(alive);
    }
  }

  // ---------------------------------------------------------------- record and replay

  /** A cell the application placed with `"<row> / <col>"` is recorded as that row and
      column. */
  lemma RecordedPlacement(cells: seq<Cell>, k: nat, row: int, col: int)
    requires k < |cells| && IsAlive(cells[k]) && cells[k].gridArea == PlacementText(row, col)
    ensures Coord(Int(row), Int(col)) in Recorded(cells)
  {
    AliveIndicesComplete(cells, k);
    RecordedIsAlivePlacements(cells);
    GridAreaRoundTrip(row, col);
    var j :| 0 <= j < |AliveIndices(cells)| && AliveIndices(cells)[j] == k;
    assert Recorded(cells)[j] == Coord(Int(row), Int(col));
  }

  /** Replaying a recording on the same cells: every recorded placement without a `NaN`
      (two numbers, or a number and the `undefined` of a placement without `/`) is found
      by the solver's lookup, at the recorded cell or at an earlier cell with the same
      placement; a placement with a `NaN` is never found. */
  lemma ReplayFindsRecorded(cells: seq<Cell>, j: nat)
    requires j < |Recorded(cells)| && j < |AliveIndices(cells)|
    ensures var t := Recorded(cells)[j];
      (!t.row.NaN? && !t.col.NaN? ==>
        FindCell(cells, t).Some? && FindCell(cells, t).value <= AliveIndices(cells)[j]) &&
      (t.row.NaN? || t.col.NaN? ==> FindCell(cells, t).None?)
  {
    RecordedIsAlivePlacements(cells);
    var t := Recorded(cells)[j];
    var k := AliveIndices(cells)[j];
    FindCellSpec(cells, t);
    ParseGridAreaUndefined(cells[k].gridArea);
    if !t.row.NaN? && !t.col.NaN? {
      assert IsAt(cells[k], t);
    }
  }

  // ---------------------------------------------------------------- getSolution

  /** What the recorder hands to its popup; the time stamp is not modelled. */
  datatype Recording = Recording(id: string, name: string, rows: nat, cols: nat, cells: seq<Coord>)

  const NoPuzzleId: string := "Cannot determine puzzle ID. Make sure you are on a puzzle page."

  /** `getSolution`: the identifier is required first, then the name, the grid size and
      the alive cells are read, and the first error thrown is passed on. */
  function GetSolution(p: RecorderPage): (r: Result<Recording>)
    ensures r.Failure? <==>
      !Truthy(RecorderPuzzleId(p.headings)) || GridSize(p).Failure? || AliveCells(p.elements).Failure?
    ensures !Truthy(RecorderPuzzleId(p.headings)) ==> r == Failure(NoPuzzleId)
    ensures r.Success? ==>
      Some(r.value.id) == RecorderPuzzleId(p.headings) && r.value.id != [] &&
      r.value.name == GetPuzzleName(p.headings) &&
      r.value.rows >= 4 && r.value.cols >= 4 &&
      r.value.cells == AliveCells(p.elements).value
  {
    var pid := RecorderPuzzleId(p.headings);
    if !Truthy(pid) then Failure(NoPuzzleId)
    else
      var name := GetPuzzleName(p.headings);
      match GridSize(p)
      case Failure(e) => Failure(e)
      case Success(size) =>
        match AliveCells(p.elements)
        case Failure(e) => Failure(e)
        case Success(cells) => Success(Recording(pid.value, name, size.0, size.1, cells))
  }

  /** A recording carries the identifier under which the solver looks its solution up. */
  lemma RecordingKeyedForSolver(p: RecorderPage)
    requires GetSolution(p).Success?
    ensures GetPuzzleId(p.headings) == Some(GetSolution(p).value.id)
  {
    RecorderIdAgrees(p.headings);
  }
}
