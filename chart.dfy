/**
 * The bookkeeping of `chart_lib/generate_chart.py` around its plotly figures:
 * the axis and legend labels a refresh schedule selects, the date range of the
 * test data, the fixed subplot layout of the bar chart, and the loop of
 * `create_plot_bar` that gives each category one colour and one legend entry and
 * collects the investment rows for the pie chart.
 */
module Chart {
  import opened Wrappers
  import opened Grid

  // ---------------------------------------------------------------- labels

  /** The schedules a chart can be refreshed by, other than the daily default. */
  const Schedules: seq<string> := ["weekly", "monthly", "quarterly", "yearly"]

  /** The bar chart's x-axis period for a schedule; any schedule it does not know is daily. */
  function BarLabel(schedule: string): (r: string)
    ensures schedule !in Schedules ==> r == "Dia"
  {
    match schedule
    case "weekly" => "Semana"
    case "monthly" => "Mês"
    case "quarterly" => "Quartil"
    case "yearly" => "Ano"
    case _ => "Dia"
  }

  /** The balance line's legend suffix for a schedule; any schedule it does not know is daily. */
  function ScatterLabel(schedule: string): (r: string)
    ensures schedule !in Schedules ==> r == "diário"
  {
    match schedule
    case "weekly" => "semanal"
    case "monthly" => "mensal"
    case "quarterly" => "quadrimestre"
    case "yearly" => "anual"
    case _ => "diário"
  }

  /** The schedule a bar label names, `daily` for the default label. */
  function ScheduleOfBarLabel(shown: string): Option<string> {
    match shown
    case "Semana" => Some("weekly")
    case "Mês" => Some("monthly")
    case "Quartil" => Some("quarterly")
    case "Ano" => Some("yearly")
    case "Dia" => Some("daily")
    case _ => None
  }

  /** The schedule a scatter label names, `daily` for the default label. */
  function ScheduleOfScatterLabel(shown: string): Option<string> {
    match shown
    case "semanal" => Some("weekly")
    case "mensal" => Some("monthly")
    case "quadrimestre" => Some("quarterly")
    case "anual" => Some("yearly")
    case "diário" => Some("daily")
    case _ => None
  }

  /** Each known schedule has its own label, read back as that schedule; every other schedule reads back as daily. */
  lemma LabelsNameTheirSchedule(schedule: string)
    ensures ScheduleOfBarLabel(BarLabel(schedule)) == Some(if schedule in Schedules then schedule else "daily")
    ensures ScheduleOfScatterLabel(ScatterLabel(schedule)) == Some(if schedule in Schedules then schedule else "daily")
  {
    if schedule in Schedules {
      assert schedule == "weekly" || schedule == "monthly" || schedule == "quarterly" || schedule == "yearly";
    }
  }

  // ---------------------------------------------------------------- dates

  /** `get_data_range(first, quantity)`: `quantity` consecutive days from `first` (none for a quantity below 1). */
  function DataRange(first: int, quantity: int): (r: seq<int>)
    ensures |r| == if quantity < 0 then 0 else quantity
    ensures |r| > 0 ==> r[0] == first
    ensures forall i :: 0 <= i < |r| - 1 ==> r[i + 1] == r[i] + 1
  {
    if quantity <= 0 then [] else seq(quantity, i requires 0 <= i < quantity => first + i)
  }

  // ---------------------------------------------------------------- layout

  /** The three subplots of `create_plot_bar`: bars at top left, the pie below them, the treemap over the other three columns. */
  const PlotObjects: seq<Obj> := [
    Obj("bar", "", "", 0, 0, 0, 0),
    Obj("pie", "", "", 1, 0, 1, 0),
    Obj("treemap", "", "", 0, 1, 2, 3)
  ]

  /**
   * The `grid_specs` and `obj_grid` of `create_plot_bar`: a 3×4 grid whose three
   * occupied cells are the bar chart's empty dict, the pie's `domain` cell and
   * the treemap's 3×3 block, every other cell empty.
   */
  method PlotBarLayout() returns (grid: array2<Cell>, objGrid: map<string, (int, int)>)
    ensures fresh(grid) && grid.Length0 == 3 && grid.Length1 == 4
    ensures grid[0, 0] == Some(Spec(None, None, None, None))
    ensures grid[1, 0] == Some(Spec(None, None, None, Some("domain")))
    ensures grid[0, 1] == Some(Spec(Some(3), Some(3), None, Some("treemap")))
    ensures forall i, j :: 0 <= i < 3 && 0 <= j < 4 && !(i == 0 && j <= 1) && !(i == 1 && j == 0) ==> grid[i, j] == None
    ensures objGrid == map["bar" := (1, 1), "pie" := (2, 1), "treemap" := (1, 2)]
  {
    grid := GenerateGridSpecs(3, 4);
    objGrid := PopulateGridSpecs(grid, PlotObjects, Untitled);
    PlotPositions();
    PlotCells();
    PlotEmptyCells();
  }

  /** Where `obj_grid` puts the three subplots. */
  lemma PlotPositions()
    ensures Positions(PlotObjects) == map["bar" := (1, 1), "pie" := (2, 1), "treemap" := (1, 2)]
  {
    var objs := PlotObjects;
    assert objs[..2] == objs[..3][..2] && objs[..2][..1] == objs[..1] && objs[..1][..0] == [];
    assert Positions(objs[..1]) == map["bar" := (1, 1)];
    assert Positions(objs[..2]) == map["bar" := (1, 1), "pie" := (2, 1)];
    assert objs[..3] == objs;
  }

  /** The three occupied cells of the layout. */
  lemma PlotCells()
    ensures Placed(PlotObjects, Untitled, 3, 4, 0, 0, None) == Some(Spec(None, None, None, None))
    ensures Placed(PlotObjects, Untitled, 3, 4, 1, 0, None) == Some(Spec(None, None, None, Some("domain")))
    ensures Placed(PlotObjects, Untitled, 3, 4, 0, 1, None) == Some(Spec(Some(3), Some(3), None, Some("treemap")))
  {
    PlacedLastWins(PlotObjects, Untitled, 3, 4, 0, 0, None, 0);
    PlacedLastWins(PlotObjects, Untitled, 3, 4, 1, 0, None, 1);
    PlacedLastWins(PlotObjects, Untitled, 3, 4, 0, 1, None, 2);
  }

  /** Every other cell of the layout stays empty. */
  lemma PlotEmptyCells()
    ensures forall i, j :: 0 <= i < 3 && 0 <= j < 4 && !(i == 0 && j <= 1) && !(i == 1 && j == 0) ==>
      Placed(PlotObjects, Untitled, 3, 4, i, j, None) == None
  {
    forall i, j | 0 <= i < 3 && 0 <= j < 4 && !(i == 0 && j <= 1) && !(i == 1 && j == 0)
      ensures Placed(PlotObjects, Untitled, 3, 4, i, j, None) == None
    {
      PlacedUntouched(PlotObjects, Untitled, 3, 4, i, j, None);
    }
  }

  // ---------------------------------------------------------------- bars

  /** A random `rgb(...)` colour. */
  datatype Rgb = Rgb(r: int, g: int, b: int)

  /** The category whose bars are investments, which the pie chart breaks down. */
  const Investment: string := "Aplicacao"

  /** The index of the first occurrence of `cat`. */
  function FirstIndex(category: seq<string>, cat: string): (k: nat)
    requires cat in category
    ensures k < |category| && category[k] == cat
    ensures forall j :: 0 <= j < k ==> category[j] != cat
  {
    if category[0] == cat then 0 else 1 + FirstIndex(category[1..], cat)
  }

  /** Where the category of bar `i` first occurs. */
  function FirstOf(category: seq<string>, i: nat): (k: nat)
    requires i < |category|
    ensures k <= i && category[k] == category[i]
  {
    FirstIndex(category, category[i])
  }

  /** A bar is its category's first occurrence exactly when no earlier bar has that category. */
  lemma FirstOfIsFirst(category: seq<string>, i: nat)
    requires i < |category|
    ensures FirstOf(category, i) == i <==> category[i] !in category[..i]
  {
    var k := FirstOf(category, i);
    assert forall j :: 0 <= j < i ==> category[j] in category[..i] by {
      forall j | 0 <= j < i ensures category[j] in category[..i] {
        assert category[..i][j] == category[j];
      }
    }
    if category[i] in category[..i] {
      var j :| 0 <= j < i && category[..i][j] == category[i];
      assert category[j] == category[i];
    }
  }

  /** Magnitudes of the investment bars, in bar order. */
  function Invested(category: seq<string>, y: seq<int>): (r: seq<int>)
    requires |y| >= |category|
  {
    if |category| == 0 then []
    else Invested(category[..|category| - 1], y) + (if category[|category| - 1] == Investment then [Abs(y[|category| - 1])] else [])
  }

  /** Descriptions of the investment bars, in bar order. */
  function InvestedTypes(category: seq<string>, description: seq<string>): (r: seq<string>)
    requires forall i :: 0 <= i < |category| && category[i] == Investment ==> i < |description|
  {
    if |category| == 0 then []
    else InvestedTypes(category[..|category| - 1], description) + (if category[|category| - 1] == Investment then [description[|category| - 1]] else [])
  }

  function Abs(x: int): int { if x < 0 then -x else x }

  /** The pie's values and labels pair up: one of each per investment bar. */
  lemma {:induction false} InvestedPairsUp(category: seq<string>, y: seq<int>, description: seq<string>)
    requires |y| >= |category|
    requires forall i :: 0 <= i < |category| && category[i] == Investment ==> i < |description|
    ensures |Invested(category, y)| == |InvestedTypes(category, description)|
  {
    if |category| > 0 {
      InvestedPairsUp(category[..|category| - 1], y, description);
    }
  }

  /** Every pie value is a non-negative magnitude. */
  lemma {:induction false} InvestedNonNegative(category: seq<string>, y: seq<int>)
    requires |y| >= |category|
    ensures forall v :: v in Invested(category, y) ==> v >= 0
  {
    if |category| > 0 {
      InvestedNonNegative(category[..|category| - 1], y);
    }
  }

  /**
   * The bar loop of `create_plot_bar` (and of `create_plot_bar_2`, without the
   * investment lists): bar `i` shows a legend entry exactly when its category has
   * not occurred before, and is drawn in the colour drawn at its category's
   * first occurrence (`draw(i)` is the colour a first occurrence at `i` draws);
   * the investment bars' magnitudes and descriptions are collected in order.
   */
  method BarTraces(category: seq<string>, y: seq<int>, description: seq<string>, draw: nat -> Rgb)
    returns (legend: seq<bool>, colors: seq<Rgb>, invest: seq<int>, investType: seq<string>)
    requires |y| >= |category|
    requires forall i :: 0 <= i < |category| && category[i] == Investment ==> i < |description|
    ensures |legend| == |category| && |colors| == |category|
    ensures forall i :: 0 <= i < |category| ==> (legend[i] <==> FirstOf(category, i) == i)
    ensures forall i :: 0 <= i < |category| ==> colors[i] == draw(FirstOf(category, i))
    ensures forall i, j :: 0 <= i < j < |category| && category[i] == category[j] ==> !legend[j] && colors[j] == colors[i]
    ensures invest == Invested(category, y)
    ensures investType == InvestedTypes(category, description)
  {
    var dictColors: map<string, Rgb> := map[];
    legend, colors, invest, investType := [], [], [], [];
    var idx := 0;
    while idx < |category|
      invariant 0 <= idx <= |category|
      invariant |legend| == idx && |colors| == idx
      invariant Booked(category, idx, dictColors, draw)
      invariant Traced(category, draw, idx, legend, colors)
      invariant invest == Invested(category[..idx], y)
      invariant investType == InvestedTypes(category[..idx], description)
    {
      var cat := category[idx];
      var pickLegend := cat !in dictColors;
      BookStep(category, idx, dictColors, draw);
      if cat !in dictColors {
        dictColors := dictColors[cat := draw(idx)];
      }
      TraceStep(category, draw, idx, legend, colors, pickLegend, dictColors[cat]);
      legend := legend + [pickLegend];
      colors := colors + [dictColors[cat]];
      InvestStep(category, y, description, idx);
      if cat == Investment {
        invest := invest + [Abs(y[idx])];
        investType := investType + [description[idx]];
      }
      idx := idx + 1;
    }
    assert category[..idx] == category;
  }

  /**
   * `dict_colors` after the first `idx` bars: it holds exactly the categories
   * seen so far, each with the colour drawn at its first occurrence.
   */
  ghost predicate Booked(category: seq<string>, idx: nat, dictColors: map<string, Rgb>, draw: nat -> Rgb)
    requires idx <= |category|
  {
    (forall c :: c in dictColors <==> c in category && FirstIndex(category, c) < idx)
    && (forall c :: c in dictColors ==> c in category && dictColors[c] == draw(FirstIndex(category, c)))
  }

  /** `dict_colors` after bar `idx` of category `cat`: a colour is drawn only for a category without one. */
  function Booking(dictColors: map<string, Rgb>, cat: string, idx: nat, draw: nat -> Rgb): map<string, Rgb> {
    if cat in dictColors then dictColors else dictColors[cat := draw(idx)]
  }

  /**
   * One bar of the loop keeps `dict_colors` booked: its category lacks a colour
   * exactly when this is the category's first occurrence, and afterwards it has
   * the colour drawn there.
   */
  lemma BookStep(category: seq<string>, idx: nat, dictColors: map<string, Rgb>, draw: nat -> Rgb)
    requires idx < |category| && Booked(category, idx, dictColors, draw)
    ensures Booked(category, idx + 1, Booking(dictColors, category[idx], idx, draw), draw)
    ensures category[idx] !in dictColors <==> FirstOf(category, idx) == idx
    ensures Booking(dictColors, category[idx], idx, draw)[category[idx]] == draw(FirstOf(category, idx))
  {
    var cat := category[idx];
    var d := Booking(dictColors, cat, idx, draw);
    assert FirstIndex(category, cat) <= idx;
    forall c ensures c in d <==> c in category && FirstIndex(category, c) < idx + 1 {
      if c != cat && c in category {
        assert category[FirstIndex(category, c)] == c;
      }
    }
    forall c | c in d ensures c in category && d[c] == draw(FirstIndex(category, c)) {
    }
  }

  /** Bars `0..idx` show a legend exactly at first occurrences and carry the colour drawn there. */
  predicate Traced(category: seq<string>, draw: nat -> Rgb, idx: nat, legend: seq<bool>, colors: seq<Rgb>)
    requires idx <= |category| && |legend| == idx && |colors| == idx
  {
    (forall i :: 0 <= i < idx ==> (legend[i] <==> FirstOf(category, i) == i))
    && (forall i :: 0 <= i < idx ==> colors[i] == draw(FirstOf(category, i)))
  }

  /** Bar `idx` extends the traced bars when its legend flag and colour are those of its first occurrence. */
  lemma TraceStep(category: seq<string>, draw: nat -> Rgb, idx: nat, legend: seq<bool>, colors: seq<Rgb>, pick: bool, color: Rgb)
    requires idx < |category| && |legend| == idx && |colors| == idx
    requires Traced(category, draw, idx, legend, colors)
    requires pick <==> FirstOf(category, idx) == idx
    requires color == draw(FirstOf(category, idx))
    ensures Traced(category, draw, idx + 1, legend + [pick], colors + [color])
  {
    var l, c := legend + [pick], colors + [color];
    forall i | 0 <= i < idx + 1 ensures (l[i] <==> FirstOf(category, i) == i) && c[i] == draw(FirstOf(category, i)) {
      if i < idx {
        assert l[i] == legend[i] && c[i] == colors[i];
      }
    }
  }

  /** The investment lists grow by bar `idx` exactly when it is an investment. */
  lemma InvestStep(category: seq<string>, y: seq<int>, description: seq<string>, idx: nat)
    requires idx < |category| && |y| >= |category|
    requires forall i :: 0 <= i < |category| && category[i] == Investment ==> i < |description|
    ensures Invested(category[..idx + 1], y) == Invested(category[..idx], y) + (if category[idx] == Investment then [Abs(y[idx])] else [])
    ensures InvestedTypes(category[..idx + 1], description)
      == InvestedTypes(category[..idx], description) + (if category[idx] == Investment then [description[idx]] else [])
  {
    assert category[..idx + 1][..idx] == category[..idx];
  }
}
