/**
 * The subplot grid helpers of `chart_lib/functions.py` and
 * `chart_lib/generate_chart.py`: an R×C grid of empty cells, and the pass that
 * writes each chart object's spec dict (spans, title, subplot type) into the
 * top-left cell it occupies and records the object's 1-based position.
 */
module Grid {
  import opened Wrappers

  /** A subplot spec dict; each key may be absent. */
  datatype Spec = Spec(rowspan: Option<int>, colspan: Option<int>, title: Option<string>, kind: Option<string>)

  /** A grid cell: `None` or a spec dict. */
  type Cell = Option<Spec>

  /**
   * The two versions of `populate_grid_specs`: the one in `chart_lib/functions.py`
   * picks the subplot type by the object's `type` and sets its `title`; the one
   * in `chart_lib/generate_chart.py` picks it by the object's `name` and sets no title.
   */
  datatype Flavor = Titled | Untitled

  /** A chart object: its name, type, title and `coord` (x1, y1, x2, y2). */
  datatype Obj = Obj(name: string, kind: string, title: string, x1: int, y1: int, x2: int, y2: int)

  /** `generate_grid_specs((r, c))`: r rows of c empty cells. */
  method GenerateGridSpecs(r: nat, c: nat) returns (g: array2<Cell>)
    ensures fresh(g)
    ensures g.Length0 == r && g.Length1 == c
    ensures forall i, j :: 0 <= i < r && 0 <= j < c ==> g[i, j] == None
  {
    g := new Cell[r, c]((i, j) => None);
  }

  /** The spec dict an object's coordinates give, before a type key is added. */
  function Spans(o: Obj, flavor: Flavor): Spec {
    var title := if flavor == Titled then Some(o.title) else None;
    if o.x2 > o.x1 then
      if o.y2 > o.y1 then Spec(Some(o.x2 - o.x1 + 1), Some(o.y2 - o.y1 + 1), title, None)
      else Spec(Some(o.x2 - o.x1 + 1), None, title, None)
    else if o.y2 > o.y1 then Spec(None, Some(o.y2 - o.y1 + 1), title, None)
    else Spec(None, None, title, None)
  }

  /** The string the subplot type is chosen by. */
  function TypeKey(o: Obj, flavor: Flavor): string {
    if flavor == Titled then o.kind else o.name
  }

  /** The plotly subplot type for a chart kind: pie charts go in a `domain` cell, treemaps in a `treemap` cell. */
  function SubplotType(key: string): Option<string> {
    if key == "pie" then Some("domain")
    else if key == "treemap" then Some("treemap")
    else None
  }

  /**
   * The finished spec dict of an object: a row span exactly when it reaches past
   * its first row, a column span exactly when it reaches past its first column
   * (each covering first to last inclusive, so at least 2), the title in the
   * titled version, and a type only for pie and treemap charts.
   */
  function SpecOf(o: Obj, flavor: Flavor): (s: Spec)
    ensures s.rowspan.Some? <==> o.x2 > o.x1
    ensures s.rowspan.Some? ==> s.rowspan.value == o.x2 - o.x1 + 1 && s.rowspan.value >= 2
    ensures s.colspan.Some? <==> o.y2 > o.y1
    ensures s.colspan.Some? ==> s.colspan.value == o.y2 - o.y1 + 1 && s.colspan.value >= 2
    ensures flavor == Titled ==> s.title == Some(o.title)
    ensures flavor == Untitled ==> s.title.None?
    ensures s.kind == Some("domain") <==> TypeKey(o, flavor) == "pie"
    ensures s.kind == Some("treemap") <==> TypeKey(o, flavor) == "treemap"
    ensures s.kind.None? <==> TypeKey(o, flavor) != "pie" && TypeKey(o, flavor) != "treemap"
  {
    var s := Spans(o, flavor);
    match SubplotType(TypeKey(o, flavor))
    case Some(t) => s.(kind := Some(t))
    case None => s
  }

  /** In the untitled version an object of one cell that is neither pie nor treemap gets an empty dict. */
  lemma SingleCellIsEmpty(o: Obj)
    requires o.x2 <= o.x1 && o.y2 <= o.y1
    requires o.name != "pie" && o.name != "treemap"
    ensures SpecOf(o, Untitled) == Spec(None, None, None, None)
  {
  }

  /** A Python list index: a negative one counts from the end. */
  function Wrap(x: int, n: int): int {
    if x < 0 then x + n else x
  }

  /** The object's top-left corner is a cell the grid has (Python indexing, negatives included). */
  predicate Fits(o: Obj, rows: int, cols: int) {
    -rows <= o.x1 < rows && -cols <= o.y1 < cols
  }

  /** The object's top-left corner is cell (i, j). */
  predicate At(o: Obj, rows: int, cols: int, i: int, j: int) {
    Wrap(o.x1, rows) == i && Wrap(o.y1, cols) == j
  }

  /** Cell (i, j), which held `before`, after every object of `objs` has been written in order. */
  function Placed(objs: seq<Obj>, flavor: Flavor, rows: int, cols: int, i: int, j: int, before: Cell): Cell {
    if |objs| == 0 then before
    else if At(objs[|objs| - 1], rows, cols, i, j) then Some(SpecOf(objs[|objs| - 1], flavor))
    else Placed(objs[..|objs| - 1], flavor, rows, cols, i, j, before)
  }

  /** A cell that is no object's top-left corner keeps what it held. */
  lemma {:induction false} PlacedUntouched(objs: seq<Obj>, flavor: Flavor, rows: int, cols: int, i: int, j: int, before: Cell)
    requires forall k :: 0 <= k < |objs| ==> !At(objs[k], rows, cols, i, j)
    ensures Placed(objs, flavor, rows, cols, i, j, before) == before
  {
    if |objs| > 0 {
      PlacedUntouched(objs[..|objs| - 1], flavor, rows, cols, i, j, before);
    }
  }

  /** A cell holds the spec of the last object whose top-left corner it is: later objects overwrite earlier ones. */
  lemma {:induction false} PlacedLastWins(objs: seq<Obj>, flavor: Flavor, rows: int, cols: int, i: int, j: int, before: Cell, k: nat)
    requires k < |objs| && At(objs[k], rows, cols, i, j)
    requires forall m :: k < m < |objs| ==> !At(objs[m], rows, cols, i, j)
    ensures Placed(objs, flavor, rows, cols, i, j, before) == Some(SpecOf(objs[k], flavor))
  {
    if k < |objs| - 1 {
      PlacedLastWins(objs[..|objs| - 1], flavor, rows, cols, i, j, before, k);
    }
  }

  /** The 1-based position of an object's top-left corner, as `obj_grid` records it. */
  function Position(o: Obj): (int, int) {
    (o.x1 + 1, o.y1 + 1)
  }

  /** `obj_grid` after every object of `objs` has been recorded in order. */
  function Positions(objs: seq<Obj>): (r: map<string, (int, int)>)
    ensures forall n :: n in r <==> exists k :: 0 <= k < |objs| && objs[k].name == n
  {
    if |objs| == 0 then map[]
    else
      var init := Positions(objs[..|objs| - 1]);
      var last := objs[|objs| - 1];
      assert forall n :: n in init <==> exists k :: 0 <= k < |objs| - 1 && objs[k].name == n by {
        forall n ensures n in init <==> exists k :: 0 <= k < |objs| - 1 && objs[k].name == n {
          if n in init {
            var k :| 0 <= k < |objs| - 1 && objs[..|objs| - 1][k].name == n;
            assert objs[k].name == n;
          }
        }
      }
      init[last.name := Position(last)]
  }

  /** A name is recorded at the position of the last object that bears it. */
  lemma {:induction false} PositionsLastWins(objs: seq<Obj>, k: nat)
    requires k < |objs|
    requires forall m :: k < m < |objs| ==> objs[m].name != objs[k].name
    ensures objs[k].name in Positions(objs) && Positions(objs)[objs[k].name] == Position(objs[k])
  {
    if k < |objs| - 1 {
      PositionsLastWins(objs[..|objs| - 1], k);
    }
  }

  /**
   * `populate_grid_specs`: each object's spec dict is written into the cell of
   * its top-left corner (first the spans and title, then the type key) and its
   * position recorded under its name. The grid passed in is the grid returned.
   */
  method PopulateGridSpecs(grid: array2<Cell>, objs: seq<Obj>, flavor: Flavor) returns (objGrid: map<string, (int, int)>)
    requires forall k :: 0 <= k < |objs| ==> Fits(objs[k], grid.Length0, grid.Length1)
    modifies grid
    ensures forall i, j :: 0 <= i < grid.Length0 && 0 <= j < grid.Length1 ==>
      grid[i, j] == Placed(objs, flavor, grid.Length0, grid.Length1, i, j, old(grid[i, j]))
    ensures objGrid == Positions(objs)
  {
    objGrid := map[];
    var k := 0;
    while k < |objs|
      invariant 0 <= k <= |objs|
      invariant forall i, j :: 0 <= i < grid.Length0 && 0 <= j < grid.Length1 ==>
        grid[i, j] == Placed(objs[..k], flavor, grid.Length0, grid.Length1, i, j, old(grid[i, j]))
      invariant objGrid == Positions(objs[..k])
    {
      var o := objs[k];
      var x, y := Wrap(o.x1, grid.Length0), Wrap(o.y1, grid.Length1);
      grid[x, y] := Some(Spans(o, flavor));
      if TypeKey(o, flavor) == "pie" {
        grid[x, y] := Some(grid[x, y].value.(kind := Some("domain")));
      }
      if TypeKey(o, flavor) == "treemap" {
        grid[x, y] := Some(grid[x, y].value.(kind := Some("treemap")));
      }
      objGrid := objGrid[o.name := Position(o)];
      assert objs[..k + 1][..k] == objs[..k];
      k := k + 1;
    }
    assert objs[..k] == objs;
  }
}
