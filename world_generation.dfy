// Terrain grids: 2D int arrays indexed [x, y], filled, copied, sprinkled
// with a value at random positions, and smoothed by a cellular automaton
// over the 8 surrounding cells.

module WorldGeneration {
  import opened Wrappers

  /** A grid as a value: column `x` is `g[x]`, and `g[x][y]` is cell (x, y). */
  type Grid = seq<seq<int>>

  /** The contents of an array as a grid. */
  ghost function Cells(a: array2<int>): (g: Grid)
    reads a
    ensures |g| == a.Length0
    ensures forall x :: 0 <= x < a.Length0 ==> |g[x]| == a.Length1
    ensures forall x, y :: 0 <= x < a.Length0 && 0 <= y < a.Length1 ==> g[x][y] == a[x, y]
  {
    seq(a.Length0, x requires 0 <= x < a.Length0 reads a =>
      seq(a.Length1, y requires 0 <= y < a.Length1 reads a => a[x, y]))
  }

  /** The array holds the grid `g`. */
  predicate Holds(a: array2<int>, g: Grid)
    reads a
  {
    && |g| == a.Length0 && (forall x :: 0 <= x < |g| ==> |g[x]| == a.Length1)
    && forall x, y :: 0 <= x < a.Length0 && 0 <= y < a.Length1 ==> g[x][y] == a[x, y]
  }

  /** Whether the cell at offset (dx, dy) from (x, y) is a different cell,
    * inside the grid, holding 1. */
  function Hit(g: Grid, x: int, y: int, dx: int, dy: int): (r: nat)
    ensures r <= 1
    ensures r == 1 <==> !(dx == 0 && dy == 0) && 0 <= x + dx < |g| && 0 <= y + dy < |g[x + dx]| &&
                        g[x + dx][y + dy] == 1
  {
    if dx == 0 && dy == 0 then 0
    else if 0 <= x + dx < |g| && 0 <= y + dy < |g[x + dx]| && g[x + dx][y + dy] == 1 then 1
    else 0
  }

  /** Hits at offsets (dx, -1) .. (dx, dyEnd - 1). */
  function ColumnHits(g: Grid, x: int, y: int, dx: int, dyEnd: int): (r: nat)
    requires -1 <= dyEnd <= 2
    ensures r <= dyEnd + 1
    decreases dyEnd + 1
  {
    if dyEnd == -1 then 0 else ColumnHits(g, x, y, dx, dyEnd - 1) + Hit(g, x, y, dx, dyEnd - 1)
  }

  /** Hits at every offset with dx in -1 .. dxEnd - 1. */
  function BlockHits(g: Grid, x: int, y: int, dxEnd: int): (r: nat)
    requires -1 <= dxEnd <= 2
    decreases dxEnd + 1
  {
    if dxEnd == -1 then 0 else BlockHits(g, x, y, dxEnd - 1) + ColumnHits(g, x, y, dxEnd - 1, 2)
  }

  /** The number of the 8 cells around (x, y) inside the grid that hold 1. */
  function NeighborCount(g: Grid, x: int, y: int): nat
  {
    BlockHits(g, x, y, 2)
  }

  /** At most the 8 surrounding cells count, and none outside the grid. */
  lemma NeighborCountBounded(g: Grid, x: int, y: int)
    ensures NeighborCount(g, x, y) <= 8
  {
    assert Hit(g, x, y, 0, 0) == 0;
    assert ColumnHits(g, x, y, 0, 2) <= 2;
  }

  /** A cell has no neighbours exactly when none of the offsets around it
      hits: each of its eight surrounding positions is outside the grid or
      does not hold 1. */
  lemma IsolatedCellHasNoNeighbors(g: Grid, x: int, y: int)
    ensures NeighborCount(g, x, y) == 0 <==>
              forall dx, dy :: -1 <= dx <= 1 && -1 <= dy <= 1 ==> Hit(g, x, y, dx, dy) == 0
  {
    assert NeighborCount(g, x, y) ==
      Hit(g, x, y, -1, -1) + Hit(g, x, y, -1, 0) + Hit(g, x, y, -1, 1) +
      Hit(g, x, y, 0, -1) + Hit(g, x, y, 0, 0) + Hit(g, x, y, 0, 1) +
      Hit(g, x, y, 1, -1) + Hit(g, x, y, 1, 0) + Hit(g, x, y, 1, 1);
  }

  /** One generation: a cell becomes 1 when at least `threshold` of its
    * neighbours hold 1 in the previous generation, otherwise 0. */
  function Step(g: Grid, threshold: int): (r: Grid)
    ensures |r| == |g| && forall x :: 0 <= x < |g| ==> |r[x]| == |g[x]|
  {
    seq(|g|, x requires 0 <= x < |g| =>
      seq(|g[x]|, y requires 0 <= y < |g[x]| => if NeighborCount(g, x, y) >= threshold then 1 else 0))
  }

  /** The grid after `n` generations. */
  function Iterate(g: Grid, threshold: int, n: nat): (r: Grid)
    ensures |r| == |g| && forall x :: 0 <= x < |g| ==> |r[x]| == |g[x]|
  {
    if n == 0 then g else Step(Iterate(g, threshold, n - 1), threshold)
  }

  /** After a generation every cell is 0 or 1, and it is 1 exactly when it
    * had at least `threshold` neighbours holding 1 before. */
  lemma StepRule(g: Grid, threshold: int, x: int, y: int)
    requires 0 <= x < |g| && 0 <= y < |g[x]|
    ensures Step(g, threshold)[x][y] in {0, 1}
    ensures Step(g, threshold)[x][y] == 1 <==> NeighborCount(g, x, y) >= threshold
  {
  }

  /** With a threshold above 8 a generation clears the grid. */
  lemma {:induction false} HighThresholdClears(g: Grid, threshold: int)
    requires threshold > 8
    ensures forall x, y :: 0 <= x < |g| && 0 <= y < |g[x]| ==> Step(g, threshold)[x][y] == 0
  {
    forall x, y | 0 <= x < |g| && 0 <= y < |g[x]|
      ensures Step(g, threshold)[x][y] == 0
    {
      NeighborCountBounded(g, x, y);
    }
  }

  /** An empty map (every cell 0) stays empty for any positive threshold. */
  lemma {:induction false} EmptyStaysEmpty(g: Grid, threshold: int, n: nat)
    requires threshold > 0
    requires forall x, y :: 0 <= x < |g| && 0 <= y < |g[x]| ==> g[x][y] == 0
    ensures Iterate(g, threshold, n) == g
  {
    if n > 0 {
      EmptyStaysEmpty(g, threshold, n - 1);
      var next := Step(g, threshold);
      forall x | 0 <= x < |g|
        ensures next[x] == g[x]
      {
        forall y | 0 <= y < |g[x]|
          ensures next[x][y] == g[x][y]
        {
          NoOnesNoNeighbors(g, x, y);
        }
      }
    }
  }

  lemma NoOnesNoNeighbors(g: Grid, x: int, y: int)
    requires forall x, y :: 0 <= x < |g| && 0 <= y < |g[x]| ==> g[x][y] == 0
    ensures NeighborCount(g, x, y) == 0
  {
    assert forall dx, dy :: Hit(g, x, y, dx, dy) == 0;
  }

  /** A width × height array with every cell equal to `value`. A negative
      dimension makes the allocation throw: no array. */
  method CreateAreaArray(width: int, height: int, value: int) returns (r: Option<array2<int>>)
    ensures r.None? <==> width < 0 || height < 0
    ensures r.Some? ==> fresh(r.value) && r.value.Length0 == width && r.value.Length1 == height
    ensures r.Some? ==> forall x, y :: 0 <= x < width && 0 <= y < height ==> r.value[x, y] == value
  {
    if width < 0 || height < 0 {
      return None;
    }
    var a := new int[width, height];
    for x := 0 to width
      invariant forall i, j :: 0 <= i < x && 0 <= j < height ==> a[i, j] == value
    {
      for y := 0 to height
        invariant forall i, j :: 0 <= i < x && 0 <= j < height ==> a[i, j] == value
        invariant forall j :: 0 <= j < y ==> a[x, j] == value
      {
        a[x, y] := value;
      }
    }
    r := Some(a);
  }

  /** A fresh array with the same dimensions and cells. */
  method CopyAreaArray(a: array2<int>) returns (c: array2<int>)
    ensures fresh(c) && c.Length0 == a.Length0 && c.Length1 == a.Length1
    ensures forall i, j :: 0 <= i < a.Length0 && 0 <= j < a.Length1 ==> c[i, j] == a[i, j]
  {
    var width, height := a.Length0, a.Length1;
    c := new int[width, height];
    for x := 0 to width
      invariant forall i, j :: 0 <= i < x && 0 <= j < height ==> c[i, j] == a[i, j]
    {
      for y := 0 to height
        invariant forall i, j :: 0 <= i < x && 0 <= j < height ==> c[i, j] == a[i, j]
        invariant forall j :: 0 <= j < y ==> c[x, j] == a[x, j]
      {
        c[x, y] := a[x, y];
      }
    }
  }

  /** Arrays with the same dimensions and cells have the same grid. */
  lemma SameCells(c: array2<int>, a: array2<int>)
    requires c.Length0 == a.Length0 && c.Length1 == a.Length1
    requires forall i, j :: 0 <= i < a.Length0 && 0 <= j < a.Length1 ==> c[i, j] == a[i, j]
    ensures Cells(c) == Cells(a)
  {
    var gc, ga := Cells(c), Cells(a);
    forall x | 0 <= x < a.Length0
      ensures gc[x] == ga[x]
    {
    }
  }

  /** On an array holding `g`, a hit is read off the array. */
  lemma HitInArray(a: array2<int>, g: Grid, x: int, y: int, dx: int, dy: int)
    requires Holds(a, g)
    ensures Hit(g, x, y, dx, dy) ==
      if !(dx == 0 && dy == 0) && 0 <= x + dx < a.Length0 && 0 <= y + dy < a.Length1 && a[x + dx, y + dy] == 1
      then 1 else 0
  {
  }

  /** Counts the neighbours of (x, y) holding 1, scanning dx then dy from -1 to 1. */
  method CountNeighbors(a: array2<int>, x: int, y: int, ghost g: Grid) returns (count: int)
    requires Holds(a, g)
    ensures count == NeighborCount(g, x, y)
  {
    count := 0;
    var width, height := a.Length0, a.Length1;
    var dx := -1;
    while dx <= 1
      invariant -1 <= dx <= 2
      invariant count == BlockHits(g, x, y, dx)
    {
      var dy := -1;
      while dy <= 1
        invariant -1 <= dy <= 2
        invariant count == BlockHits(g, x, y, dx) + ColumnHits(g, x, y, dx, dy)
      {
        HitInArray(a, g, x, y, dx, dy);
        ghost var before := count;
        if !(dx == 0 && dy == 0) {
          var nx, ny := x + dx, y + dy;
          if nx >= 0 && nx < width && ny >= 0 && ny < height {
            if a[nx, ny] == 1 {
              count := count + 1;
            }
          }
        }
        assert count == before + Hit(g, x, y, dx, dy);
        dy := dy + 1;
      }
      assert BlockHits(g, x, y, dx + 1) == BlockHits(g, x, y, dx) + ColumnHits(g, x, y, dx, 2);
      dx := dx + 1;
    }
  }

  /** Runs `loops` generations on a copy; the input is left as it was. */
  method CellularAutomata(a: array2<int>, neighborThreshold: int, loops: int) returns (result: array2<int>)
    ensures fresh(result) && result.Length0 == a.Length0 && result.Length1 == a.Length1
    ensures Cells(result) == Iterate(Cells(a), neighborThreshold, if loops < 0 then 0 else loops)
  {
    result := CopyAreaArray(a);
    SameCells(result, a);
    var l := 0;
    while l < loops
      invariant fresh(result) && result.Length0 == a.Length0 && result.Length1 == a.Length1
      invariant l == 0 || 0 <= l <= loops
      invariant Cells(result) == Iterate(Cells(a), neighborThreshold, l)
    {
      result := Generation(result, neighborThreshold);
      l := l + 1;
    }
  }

  /** The body of one round of CellularAutomata: every cell of a copy is
    * rewritten from the neighbour counts of the previous generation. */
  method Generation(result: array2<int>, neighborThreshold: int) returns (temp: array2<int>)
    ensures fresh(temp) && temp.Length0 == result.Length0 && temp.Length1 == result.Length1
    ensures Cells(temp) == Step(Cells(result), neighborThreshold)
  {
    var width, height := result.Length0, result.Length1;
    temp := CopyAreaArray(result);
    ghost var prev := Cells(result);
    for x := 0 to width
      invariant forall i, j :: 0 <= i < x && 0 <= j < height ==> temp[i, j] == NextCell(prev, neighborThreshold, i, j)
    {
      GenerationColumn(result, temp, x, neighborThreshold, prev);
    }
    StepCells(temp, prev, neighborThreshold);
  }

  /** Rewrites column `x` of `temp`. */
  method GenerationColumn(result: array2<int>, temp: array2<int>, x: int, neighborThreshold: int, ghost prev: Grid)
    requires Holds(result, prev) && result != temp
    requires temp.Length0 == result.Length0 && temp.Length1 == result.Length1 && 0 <= x < temp.Length0
    modifies temp
    ensures forall i, j :: 0 <= i < temp.Length0 && 0 <= j < temp.Length1 && i != x ==> temp[i, j] == old(temp[i, j])
    ensures forall j :: 0 <= j < temp.Length1 ==> temp[x, j] == NextCell(prev, neighborThreshold, x, j)
  {
    for y := 0 to temp.Length1
      invariant forall i, j :: 0 <= i < temp.Length0 && 0 <= j < temp.Length1 && i != x ==> temp[i, j] == old(temp[i, j])
      invariant forall j :: 0 <= j < y ==> temp[x, j] == NextCell(prev, neighborThreshold, x, j)
    {
      var neighbors := CountNeighbors(result, x, y, prev);
      if neighbors >= neighborThreshold {
        temp[x, y] := 1;
      } else {
        temp[x, y] := 0;
      }
    }
  }

  /** A cell of the next generation. */
  function NextCell(g: Grid, threshold: int, x: int, y: int): int
  {
    if NeighborCount(g, x, y) >= threshold then 1 else 0
  }

  /** An array holding the next generation of every cell of `g` holds `Step(g)`. */
  lemma StepCells(a: array2<int>, g: Grid, threshold: int)
    requires |g| == a.Length0 && forall x :: 0 <= x < |g| ==> |g[x]| == a.Length1
    requires forall i, j :: 0 <= i < a.Length0 && 0 <= j < a.Length1 ==> a[i, j] == NextCell(g, threshold, i, j)
    ensures Cells(a) == Step(g, threshold)
  {
    GridOfCells(a, Step(g, threshold));
  }

  /** An array whose cells agree with a grid of its dimensions has that grid. */
  lemma GridOfCells(a: array2<int>, g: Grid)
    requires |g| == a.Length0 && forall x :: 0 <= x < |g| ==> |g[x]| == a.Length1
    requires forall i, j :: 0 <= i < a.Length0 && 0 <= j < a.Length1 ==> a[i, j] == g[i][j]
    ensures Cells(a) == g
  {
    var ga := Cells(a);
    forall x | 0 <= x < a.Length0
      ensures ga[x] == g[x]
    {
    }
  }

  /** `Mathf.Clamp01`. */
  function Clamp01(p: real): (r: real)
    ensures 0.0 <= r <= 1.0
    ensures 0.0 <= p <= 1.0 ==> r == p
  {
    if p < 0.0 then 0.0 else if p > 1.0 then 1.0 else p
  }

  /** `Mathf.RoundToInt`: the nearest integer, a tie going to the even one. */
  function RoundToInt(r: real): (n: int)
    ensures -0.5 <= n as real - r <= 0.5
    ensures (n as real - r == 0.5 || r - n as real == 0.5) ==> n % 2 == 0
  {
    var f := r.Floor;
    var frac := r - f as real;
    if frac < 0.5 then f
    else if frac > 0.5 then f + 1
    else if f % 2 == 0 then f else f + 1
  }

  /** How many of `total` cells a fraction `perc` asks for. */
  function CellsToSet(total: nat, perc: real): (n: int)
    ensures 0 <= n <= total
  {
    var c := Clamp01(perc);
    var t := total as real * c;
    assert 0.0 <= t <= total as real by {
      assert total as real * c <= total as real * 1.0;
    }
    RoundToInt(t)
  }

  /** The cells open to randomisation: all of them, or all but the border. */
  predicate InRange(width: int, height: int, ignoreEdge: bool, p: (int, int))
  {
    var (minX, maxX) := if ignoreEdge then (1, width - 2) else (0, width - 1);
    var (minY, maxY) := if ignoreEdge then (1, height - 2) else (0, height - 1);
    minX <= p.0 <= maxX && minY <= p.1 <= maxY
  }

  lemma InRangeBounds(width: int, height: int, ignoreEdge: bool, p: (int, int))
    requires InRange(width, height, ignoreEdge, p)
    ensures 0 <= p.0 < width && 0 <= p.1 < height
  {
  }

  predicate Distinct(s: seq<(int, int)>)
  {
    forall i, j :: 0 <= i < j < |s| ==> s[i] != s[j]
  }

  /** A copy in which `value` is written at a random choice of distinct open
    * positions, as many as `perc` of them asks for. `chosen` lists the
    * positions written, in the order they were drawn. */
  method RandomizeAreaArray(a: array2<int>, perc: real, value: int, ignoreEdge: bool)
    returns (r: array2<int>, ghost chosen: seq<(int, int)>)
    ensures fresh(r) && r.Length0 == a.Length0 && r.Length1 == a.Length1
    ensures Distinct(chosen)
    ensures forall p :: p in chosen ==> InRange(a.Length0, a.Length1, ignoreEdge, p)
    ensures forall x, y :: 0 <= x < a.Length0 && 0 <= y < a.Length1 ==>
      r[x, y] == if (x, y) in chosen then value else a[x, y]
    ensures |chosen| <= CellsToSet(|OpenCells(a.Length0, a.Length1, ignoreEdge)|, perc)
    ensures |chosen| < CellsToSet(|OpenCells(a.Length0, a.Length1, ignoreEdge)|, perc) ==>
      forall p :: InRange(a.Length0, a.Length1, ignoreEdge, p) ==> p in chosen
  {
    var width, height := a.Length0, a.Length1;
    r := CopyAreaArray(a);
    var positions := OpenCellList(width, height, ignoreEdge);
    var totalCells := |positions|;
    var cellsToSet := CellsToSet(totalCells, perc);
    chosen := [];
    var i := 0;
    while i < cellsToSet && |positions| > 0
      invariant 0 <= i <= cellsToSet && |chosen| == i
      invariant Distinct(positions) && Distinct(chosen)
      invariant forall p :: p in chosen ==> p !in positions
      invariant forall p :: InRange(width, height, ignoreEdge, p) <==> p in chosen || p in positions
      invariant forall x, y :: 0 <= x < width && 0 <= y < height ==>
        r[x, y] == if (x, y) in chosen then value else a[x, y]
    {
      var idx :| 0 <= idx < |positions|;
      var pos := positions[idx];
      InRangeBounds(width, height, ignoreEdge, pos);
      r[pos.0, pos.1] := value;
      RemoveKeepsDistinct(positions, idx);
      positions := positions[..idx] + positions[idx + 1..];
      chosen := chosen + [pos];
      i := i + 1;
    }
  }

  lemma RemoveKeepsDistinct(s: seq<(int, int)>, idx: int)
    requires 0 <= idx < |s| && Distinct(s)
    ensures var t := s[..idx] + s[idx + 1..];
      Distinct(t) && (forall p :: p in t <==> p in s && p != s[idx])
  {
    var t := s[..idx] + s[idx + 1..];
    assert forall k :: 0 <= k < |t| ==> t[k] == if k < idx then s[k] else s[k + 1];
    forall p | p in s && p != s[idx]
      ensures p in t
    {
      var k :| 0 <= k < |s| && s[k] == p;
      if k < idx { assert t[k] == p; } else { assert t[k - 1] == p; }
    }
  }

  /** The open positions, column by column. */
  function OpenCells(width: int, height: int, ignoreEdge: bool): (s: seq<(int, int)>)
    ensures Distinct(s)
    ensures forall p :: p in s <==> InRange(width, height, ignoreEdge, p)
  {
    var (minX, maxX) := if ignoreEdge then (1, width - 2) else (0, width - 1);
    var (minY, maxY) := if ignoreEdge then (1, height - 2) else (0, height - 1);
    OpenColumnsFacts(minX, maxX + 1, minY, maxY);
    OpenColumns(minX, maxX + 1, minY, maxY)
  }

  /** Distinct lists with no element in common join into a distinct list. */
  lemma DistinctConcat(s: seq<(int, int)>, t: seq<(int, int)>)
    requires Distinct(s) && Distinct(t)
    requires forall p :: p in s ==> p !in t
    ensures Distinct(s + t)
  {
    var u := s + t;
    forall i, j | 0 <= i < j < |u|
      ensures u[i] != u[j]
    {
      if j < |s| {
        assert u[i] == s[i] && u[j] == s[j];
      } else if i >= |s| {
        assert u[i] == t[i - |s|] && u[j] == t[j - |s|];
      } else {
        assert u[i] == s[i] && u[j] == t[j - |s|];
        assert s[i] in s && t[j - |s|] in t;
      }
    }
  }

  /** The positions (x, minY) .. (x, yEnd - 1). */
  function Column(x: int, minY: int, yEnd: int): seq<(int, int)>
    decreases yEnd - minY
  {
    if yEnd <= minY then [] else Column(x, minY, yEnd - 1) + [(x, yEnd - 1)]
  }

  lemma {:induction false} ColumnFacts(x: int, minY: int, yEnd: int)
    ensures Distinct(Column(x, minY, yEnd))
    ensures forall p :: p in Column(x, minY, yEnd) <==> p.0 == x && minY <= p.1 < yEnd
    decreases yEnd - minY
  {
    if yEnd > minY {
      ColumnFacts(x, minY, yEnd - 1);
      DistinctConcat(Column(x, minY, yEnd - 1), [(x, yEnd - 1)]);
    }
  }

  /** The columns minX .. xEnd - 1 of positions with y in minY .. maxY, one after another. */
  function OpenColumns(minX: int, xEnd: int, minY: int, maxY: int): seq<(int, int)>
    decreases xEnd - minX
  {
    if xEnd <= minX then [] else OpenColumns(minX, xEnd - 1, minY, maxY) + Column(xEnd - 1, minY, maxY + 1)
  }

  lemma {:induction false} OpenColumnsFacts(minX: int, xEnd: int, minY: int, maxY: int)
    ensures Distinct(OpenColumns(minX, xEnd, minY, maxY))
    ensures forall p :: p in OpenColumns(minX, xEnd, minY, maxY) <==> minX <= p.0 < xEnd && minY <= p.1 <= maxY
    decreases xEnd - minX
  {
    if xEnd > minX {
      OpenColumnsFacts(minX, xEnd - 1, minY, maxY);
      ColumnFacts(xEnd - 1, minY, maxY + 1);
      DistinctConcat(OpenColumns(minX, xEnd - 1, minY, maxY), Column(xEnd - 1, minY, maxY + 1));
    }
  }

  /** Builds the open-position list with the nested loops over x, then y. */
  method OpenCellList(width: int, height: int, ignoreEdge: bool) returns (positions: seq<(int, int)>)
    ensures positions == OpenCells(width, height, ignoreEdge)
  {
    var minX := if ignoreEdge then 1 else 0;
    var maxX := if ignoreEdge then width - 2 else width - 1;
    var minY := if ignoreEdge then 1 else 0;
    var maxY := if ignoreEdge then height - 2 else height - 1;
    positions := [];
    var x := minX;
    while x <= maxX
      invariant x == minX || minX <= x <= maxX + 1
      invariant positions == OpenColumns(minX, x, minY, maxY)
    {
      var col := [];
      var y := minY;
      while y <= maxY
        invariant y == minY || minY <= y <= maxY + 1
        invariant col == Column(x, minY, y)
      {
        col := col + [(x, y)];
        y := y + 1;
      }
      assert col == Column(x, minY, maxY + 1);
      positions := positions + col;
      x := x + 1;
    }
  }
}
