/**
 * A world of hexagonal regions drawn on a 2-D grid of tiles, `tiles[x, y]`
 * with `x` the column and `y` the line. Hexagons are drawn row by row; a
 * tessellation is drawn column of hexagons by column of hexagons, each
 * hexagon with a tile picked from a random number.
 */
module HexWorld {

  /** The tiles the world uses; `Nothing` is empty space. */
  datatype Tile = Nothing | Grass | Mountain | Sand | Tree | Flower

  /**
   * `randomTile`, given the number `RANDOM.nextInt(5)` returned: one of five
   * landscape tiles; only a number outside 0..4 would give `Nothing`.
   */
  function RandomTile(tileNum: int): (t: Tile)
    ensures t == Nothing <==> !(0 <= tileNum < 5)
  {
    if tileNum == 0 then Grass
    else if tileNum == 1 then Mountain
    else if tileNum == 2 then Sand
    else if tileNum == 3 then Tree
    else if tileNum == 4 then Flower
    else Nothing
  }

  /** Cell `(a, b)` is one of the `width` cells from `(x, y)` rightwards. */
  predicate InRow(width: int, x: int, y: int, a: int, b: int)
  {
    b == y && x <= a < x + width
  }

  /** Cell `(a, b)` is in one of the first `n` rows of the top half: row `i` is line `y - i`, from `x - i`, `s + 2i` wide. */
  predicate InTopRows(s: int, x: int, y: int, n: int, a: int, b: int)
  {
    0 <= y - b < n && x - (y - b) <= a < x + s + (y - b)
  }

  /**
   * Cell `(a, b)` is in one of the first `n` rows of the bottom half: row `i`
   * is line `y - s - i`, from `x - (s - 1) + i`, `3s - 2 - 2i` wide.
   */
  predicate InBottomRows(s: int, x: int, y: int, n: int, a: int, b: int)
  {
    0 <= y - s - b < n && x - (s - 1) + (y - s - b) <= a < x + 2 * s - 1 - (y - s - b)
  }

  /** Cell `(a, b)` is covered by the hexagon of side `s` whose top row starts at `(x, y)`. */
  predicate InHexagon(s: int, x: int, y: int, a: int, b: int)
  {
    InTopRows(s, x, y, s, a, b) || InBottomRows(s, x, y, s, a, b)
  }

  /** Row `i` of the hexagon, top half first, as the source fills it. */
  predicate InHexagonRow(s: int, x: int, y: int, i: int, a: int, b: int)
  {
    InRow(s + 2 * i, x - i, y - i, a, b) || InRow(3 * s - 2 - 2 * i, x - (s - 1) + i, y - s - i, a, b)
  }

  /** A row of `width` cells from `(x, y)` lies inside the grid (nothing is written when `width <= 0`). */
  predicate RowFits(tiles: array2<Tile>, width: int, x: int, y: int)
  {
    width <= 0 || (0 <= x && x + width <= tiles.Length0 && 0 <= y < tiles.Length1)
  }

  /** Every cell of the hexagon lies inside the grid: the source checks no bounds. */
  predicate HexagonFits(tiles: array2<Tile>, s: int, x: int, y: int)
  {
    s <= 0 || (0 <= x - (s - 1) && x + 2 * s - 1 <= tiles.Length0 && 0 <= y - 2 * s + 1 && y < tiles.Length1)
  }

  /** The hexagon is exactly its `2s` rows: `s` widening rows on top, `s` narrowing rows below. */
  lemma HexagonByRows(s: int, x: int, y: int, a: int, b: int)
    ensures InHexagon(s, x, y, a, b) <==> exists i :: 0 <= i < s && InHexagonRow(s, x, y, i, a, b)
  {
    if InTopRows(s, x, y, s, a, b) {
      assert InHexagonRow(s, x, y, y - b, a, b);
    } else if InBottomRows(s, x, y, s, a, b) {
      assert InHexagonRow(s, x, y, y - s - b, a, b);
    }
  }

  /**
   * The two middle rows are the widest, `3s - 2` cells from `x - (s - 1)`,
   * and no row is wider.
   */
  lemma WidestRowsInMiddle(s: int, x: int, y: int, a: int, b: int)
    requires s >= 1
    ensures InHexagon(s, x, y, a, b) ==> x - (s - 1) <= a < x + 2 * s - 1
    ensures InRow(3 * s - 2, x - (s - 1), y - (s - 1), a, b) ==> InHexagon(s, x, y, a, b)
    ensures InRow(3 * s - 2, x - (s - 1), y - s, a, b) ==> InHexagon(s, x, y, a, b)
  {
  }

  /** The hexagon is symmetric about its vertical axis and about the line between its middle rows. */
  lemma HexagonSymmetric(s: int, x: int, y: int, a: int, b: int)
    ensures InHexagon(s, x, y, a, b) <==> InHexagon(s, x, y, 2 * x + s - 1 - a, b)
    ensures InHexagon(s, x, y, a, b) <==> InHexagon(s, x, y, a, 2 * y - 2 * s + 1 - b)
  {
  }

  /** `fillRow`: writes `t` into the `width` cells from `(x, y)` rightwards and into no other cell. */
  method FillRow(tiles: array2<Tile>, width: int, x: int, y: int, t: Tile)
    requires RowFits(tiles, width, x, y)
    modifies tiles
    ensures forall a, b :: 0 <= a < tiles.Length0 && 0 <= b < tiles.Length1 ==>
              tiles[a, b] == if InRow(width, x, y, a, b) then t else old(tiles[a, b])
  {
    var i := 0;
    while i < width
      invariant 0 <= i && (i <= width || i == 0)
      invariant forall a, b :: 0 <= a < tiles.Length0 && 0 <= b < tiles.Length1 ==>
                  tiles[a, b] == if InRow(i, x, y, a, b) then t else old(tiles[a, b])
    {
      tiles[x + i, y] := t;
      i := i + 1;
    }
  }

  /** `addHexagon`: writes `t` into every cell of the hexagon and into no other cell. */
  method AddHexagon(tiles: array2<Tile>, s: int, x: int, y: int, t: Tile)
    requires HexagonFits(tiles, s, x, y)
    modifies tiles
    ensures forall a, b :: 0 <= a < tiles.Length0 && 0 <= b < tiles.Length1 ==>
              tiles[a, b] == if InHexagon(s, x, y, a, b) then t else old(tiles[a, b])
  {
    var i := 0;
    while i < s
      invariant 0 <= i && (i <= s || i == 0)
      invariant forall a, b :: 0 <= a < tiles.Length0 && 0 <= b < tiles.Length1 ==>
                  tiles[a, b] == if InTopRows(s, x, y, i, a, b) then t else old(tiles[a, b])
    {
      FillRow(tiles, s + i * 2, x - i, y - i, t);
      i := i + 1;
    }
    var width := s + 2 * (s - 1);
    var bottomX := x - (s - 1);
    var bottomY := y - s;
    i := 0;
    while i < s
      invariant 0 <= i && (i <= s || i == 0)
      invariant forall a, b :: 0 <= a < tiles.Length0 && 0 <= b < tiles.Length1 ==>
                  tiles[a, b] ==
                    if InTopRows(s, x, y, s, a, b) || InBottomRows(s, x, y, i, a, b) then t
                    else old(tiles[a, b])
    {
      FillRow(tiles, width - i * 2, bottomX + i, bottomY - i, t);
      i := i + 1;
    }
  }

  /** `fillEmptyTiles`: every cell becomes `Nothing`. The source reads the height from column 0, so the grid has a column. */
  method FillEmptyTiles(tiles: array2<Tile>)
    requires tiles.Length0 > 0
    modifies tiles
    ensures forall a, b :: 0 <= a < tiles.Length0 && 0 <= b < tiles.Length1 ==> tiles[a, b] == Nothing
  {
    var height := tiles.Length1;
    var width := tiles.Length0;
    var x := 0;
    while x < width
      invariant 0 <= x <= width
      invariant forall a, b :: 0 <= a < x && 0 <= b < height ==> tiles[a, b] == Nothing
    {
      var y := 0;
      while y < height
        invariant 0 <= y <= height
        invariant forall a, b :: 0 <= a < x && 0 <= b < height ==> tiles[a, b] == Nothing
        invariant forall b :: 0 <= b < y ==> tiles[x, b] == Nothing
      {
        tiles[x, y] := Nothing;
        y := y + 1;
      }
      x := x + 1;
    }
  }

  /** Where a hexagon's top row starts. */
  datatype Place = Place(x: int, y: int)

  /**
   * The tile of cell `(a, b)` after drawing hexagons of side `s` at `places`
   * in order, the `k`-th with the tile of the `k`-th random number: the last
   * hexagon covering the cell decides, and `before` stays when none does.
   */
  function Painted(s: int, places: seq<Place>, draws: seq<int>, a: int, b: int, before: Tile): Tile
    requires |places| <= |draws|
    decreases |places|, 1
  {
    if places == [] then before else PaintedLast(s, places, draws, a, b, before)
  }

  /** The last hexagon of a non-empty list decides the cell when it covers it; otherwise the others do. */
  function PaintedLast(s: int, places: seq<Place>, draws: seq<int>, a: int, b: int, before: Tile): Tile
    requires 0 < |places| <= |draws|
    decreases |places|, 0
  {
    var k := |places| - 1;
    if InHexagon(s, places[k].x, places[k].y, a, b) then RandomTile(draws[k])
    else Painted(s, places[..k], draws, a, b, before)
  }

  /** Drawing `p` and then `q` paints `q` over what `p` left, with the random numbers after `p`'s. */
  lemma {:induction false} PaintedAppend(s: int, p: seq<Place>, q: seq<Place>, draws: seq<int>, a: int, b: int, before: Tile)
    requires |p| + |q| <= |draws|
    ensures Painted(s, p + q, draws, a, b, before) ==
            Painted(s, q, draws[|p|..], a, b, Painted(s, p, draws, a, b, before))
    decreases |q|
  {
    if q != [] {
      var k := |q| - 1;
      assert (p + q)[..|p| + k] == p + q[..k];
      assert (p + q)[|p| + k] == q[k];
      PaintedAppend(s, p, q[..k], draws, a, b, before);
    } else {
      assert p + q == p;
    }
  }

  /** Drawing one more hexagon paints it over what the others left. */
  lemma PaintedSnoc(s: int, p: seq<Place>, place: Place, draws: seq<int>, a: int, b: int, before: Tile)
    requires |p| < |draws|
    ensures Painted(s, p + [place], draws, a, b, before) ==
            if InHexagon(s, place.x, place.y, a, b) then RandomTile(draws[|p|]) else Painted(s, p, draws, a, b, before)
  {
    assert (p + [place])[..|p|] == p;
  }

  /** The `k`-th hexagon of a column is `2s` lines below the one before it; a negative length draws none. */
  function ColumnPlaces(x: int, y: int, s: int, length: int): (places: seq<Place>)
    ensures |places| == if length < 0 then 0 else length
    decreases length
  {
    if length <= 0 then [] else ColumnPlaces(x, y, s, length - 1) + [Place(x, y - (length - 1) * 2 * s)]
  }

  /** The `k`-th hexagon of a column starts `2 * s * k` lines below the first. */
  lemma {:induction false} ColumnPlaceAt(x: int, y: int, s: int, length: int, k: int)
    requires 0 <= k < length
    ensures ColumnPlaces(x, y, s, length)[k] == Place(x, y - k * 2 * s)
    decreases length
  {
    if k < length - 1 {
      ColumnPlaceAt(x, y, s, length - 1, k);
    }
  }

  /** Every hexagon of the list lies inside the grid. */
  predicate AllFit(tiles: array2<Tile>, s: int, places: seq<Place>)
  {
    forall k :: 0 <= k < |places| ==> HexagonFits(tiles, s, places[k].x, places[k].y)
  }

  /**
   * `fillTerrainColumn`: draws `length` hexagons of side `s` downwards from
   * `(startX, startY)`, the `i`-th with the tile of `draws[i]`.
   */
  method FillTerrainColumn(tiles: array2<Tile>, startX: int, startY: int, s: int, length: int, draws: seq<int>)
    requires length <= |draws|
    requires AllFit(tiles, s, ColumnPlaces(startX, startY, s, length))
    modifies tiles
    ensures forall a, b :: 0 <= a < tiles.Length0 && 0 <= b < tiles.Length1 ==>
              tiles[a, b] == Painted(s, ColumnPlaces(startX, startY, s, length), draws, a, b, old(tiles[a, b]))
  {
    ghost var places := ColumnPlaces(startX, startY, s, length);
    var i := 0;
    while i < length
      invariant 0 <= i && (i <= length || i == 0)
      invariant forall a, b :: 0 <= a < tiles.Length0 && 0 <= b < tiles.Length1 ==>
                  tiles[a, b] == Painted(s, places[..i], draws, a, b, old(tiles[a, b]))
    {
      ColumnPlaceAt(startX, startY, s, length, i);
      AddHexagon(tiles, s, startX, startY - i * 2 * s, RandomTile(draws[i]));
      forall a, b | 0 <= a < tiles.Length0 && 0 <= b < tiles.Length1
        ensures tiles[a, b] == Painted(s, places[..i + 1], draws, a, b, old(tiles[a, b]))
      {
        assert places[..i + 1] == places[..i] + [places[i]];
        PaintedSnoc(s, places[..i], places[i], draws, a, b, old(tiles[a, b]));
      }
      i := i + 1;
    }
    assert places[..i] == places;
  }

  /** The two columns `i` steps left and right of the centre: `2s - 1` cells and `s` lines per step, one hexagon fewer per step. */
  function OuterColumns(tessSize: int, s: int, x: int, y: int, i: int): seq<Place>
  {
    ColumnPlaces(x - i * (2 * s - 1), y - i * s, s, 2 * tessSize - 1 - i)
      + ColumnPlaces(x + i * (2 * s - 1), y - i * s, s, 2 * tessSize - 1 - i)
  }

  /** The outer columns for steps `1 .. n - 1`, in the order the source draws them. */
  function OuterPlaces(tessSize: int, s: int, x: int, y: int, n: int): seq<Place>
    decreases n
  {
    if n <= 1 then [] else OuterPlaces(tessSize, s, x, y, n - 1) + OuterColumns(tessSize, s, x, y, n - 1)
  }

  /** `terrainGenerator`'s hexagons, in drawing order: the central column of `2 * tessSize - 1`, then the outer columns. */
  function TerrainPlaces(tessSize: int, s: int, x: int, y: int): seq<Place>
  {
    ColumnPlaces(x, y, s, 2 * tessSize - 1) + OuterPlaces(tessSize, s, x, y, tessSize)
  }

  /** Steps `1 .. n - 1` draw `(n - 1)(4 * tessSize - 2 - n)` hexagons. */
  lemma {:induction false} OuterPlacesCount(tessSize: int, s: int, x: int, y: int, n: int)
    requires 1 <= n <= tessSize
    ensures |OuterPlaces(tessSize, s, x, y, n)| == (n - 1) * (4 * tessSize - 2 - n)
    decreases n
  {
    if n > 1 {
      OuterPlacesCount(tessSize, s, x, y, n - 1);
      assert |OuterColumns(tessSize, s, x, y, n - 1)| == 2 * (2 * tessSize - n);
      CountStep(tessSize, n);
    }
  }

  lemma CountStep(tessSize: int, n: int)
    ensures (n - 2) * (4 * tessSize - 1 - n) + 2 * (2 * tessSize - n) == (n - 1) * (4 * tessSize - 2 - n)
  {
  }

  /** A tessellation of size `tessSize` is a hexagon of hexagons: `3 * tessSize^2 - 3 * tessSize + 1` of them. */
  lemma TerrainCount(tessSize: int, s: int, x: int, y: int)
    requires tessSize >= 1
    ensures |TerrainPlaces(tessSize, s, x, y)| == 3 * tessSize * tessSize - 3 * tessSize + 1
  {
    OuterPlacesCount(tessSize, s, x, y, tessSize);
  }

  /** A list of hexagons that all fit has a prefix and a suffix that all fit. */
  lemma AllFitAppend(tiles: array2<Tile>, s: int, p: seq<Place>, q: seq<Place>)
    requires AllFit(tiles, s, p + q)
    ensures AllFit(tiles, s, p) && AllFit(tiles, s, q)
  {
    forall k | 0 <= k < |p|
      ensures HexagonFits(tiles, s, p[k].x, p[k].y)
    {
      assert p[k] == (p + q)[k];
    }
    forall k | 0 <= k < |q|
      ensures HexagonFits(tiles, s, q[k].x, q[k].y)
    {
      assert q[k] == (p + q)[|p| + k];
    }
  }

  /** The outer columns of fewer steps are a prefix of those of more steps: no longer, and they fit when the longer list does. */
  lemma {:induction false} OuterPlacesPrefix(tiles: array2<Tile>, tessSize: int, s: int, x: int, y: int, n: int, m: int)
    requires n <= m
    ensures |OuterPlaces(tessSize, s, x, y, n)| <= |OuterPlaces(tessSize, s, x, y, m)|
    ensures AllFit(tiles, s, OuterPlaces(tessSize, s, x, y, m)) ==> AllFit(tiles, s, OuterPlaces(tessSize, s, x, y, n))
    decreases m - n
  {
    if n < m && m > 1 {
      OuterPlacesPrefix(tiles, tessSize, s, x, y, n, m - 1);
      if AllFit(tiles, s, OuterPlaces(tessSize, s, x, y, m)) {
        AllFitAppend(tiles, s, OuterPlaces(tessSize, s, x, y, m - 1), OuterColumns(tessSize, s, x, y, m - 1));
      }
    }
  }

  /** Every step's columns fit, and the steps so far draw no more than all of them, when the whole tessellation fits. */
  lemma OuterColumnsFit(tiles: array2<Tile>, tessSize: int, s: int, x: int, y: int, i: int)
    requires 1 <= i < tessSize
    requires AllFit(tiles, s, OuterPlaces(tessSize, s, x, y, tessSize))
    ensures AllFit(tiles, s, OuterColumns(tessSize, s, x, y, i))
    ensures |OuterPlaces(tessSize, s, x, y, i + 1)| <= |OuterPlaces(tessSize, s, x, y, tessSize)|
  {
    OuterPlacesPrefix(tiles, tessSize, s, x, y, i + 1, tessSize);
    AllFitAppend(tiles, s, OuterPlaces(tessSize, s, x, y, i), OuterColumns(tessSize, s, x, y, i));
  }

  /** One more step outwards appends that step's two columns to what was drawn. */
  lemma OuterPlacesStep(central: seq<Place>, tessSize: int, s: int, x: int, y: int, i: int)
    requires 1 <= i
    ensures central + OuterPlaces(tessSize, s, x, y, i + 1) ==
            (central + OuterPlaces(tessSize, s, x, y, i)) + OuterColumns(tessSize, s, x, y, i)
    ensures |OuterColumns(tessSize, s, x, y, i)| == 2 * if 2 * tessSize - 1 - i < 0 then 0 else 2 * tessSize - 1 - i
  {
    var done := OuterPlaces(tessSize, s, x, y, i);
    var columns := OuterColumns(tessSize, s, x, y, i);
    assert OuterPlaces(tessSize, s, x, y, i + 1) == done + columns;
    AppendAssociative(central, done, columns);
  }

  lemma AppendAssociative(p: seq<Place>, q: seq<Place>, r: seq<Place>)
    ensures p + (q + r) == (p + q) + r
  {
  }

  /**
   * One step of `terrainGenerator`'s loop: the left and then the right
   * column `i` steps from the centre.
   */
  method FillOuterColumns(tiles: array2<Tile>, tessSize: int, hexSize: int, x: int, y: int, i: int, draws: seq<int>)
    requires |OuterColumns(tessSize, hexSize, x, y, i)| <= |draws|
    requires AllFit(tiles, hexSize, OuterColumns(tessSize, hexSize, x, y, i))
    modifies tiles
    ensures forall a, b :: 0 <= a < tiles.Length0 && 0 <= b < tiles.Length1 ==>
              tiles[a, b] == Painted(hexSize, OuterColumns(tessSize, hexSize, x, y, i), draws, a, b, old(tiles[a, b]))
  {
    var numHexagons := 2 * tessSize - 1;
    var xOffset := 2 * hexSize - 1;
    ghost var left := ColumnPlaces(x - i * xOffset, y - i * hexSize, hexSize, numHexagons - i);
    ghost var right := ColumnPlaces(x + i * xOffset, y - i * hexSize, hexSize, numHexagons - i);
    AllFitAppend(tiles, hexSize, left, right);
    FillTerrainColumn(tiles, x - i * xOffset, y - i * hexSize, hexSize, numHexagons - i, draws);
    label Middle:
    var used := if numHexagons - i < 0 then 0 else numHexagons - i;
    FillTerrainColumn(tiles, x + i * xOffset, y - i * hexSize, hexSize, numHexagons - i, draws[used..]);
    forall a, b | 0 <= a < tiles.Length0 && 0 <= b < tiles.Length1
      ensures tiles[a, b] == Painted(hexSize, left + right, draws, a, b, old(tiles[a, b]))
    {
      PaintedAppend(hexSize, left, right, draws, a, b, old(tiles[a, b]));
    }
  }

  /**
   * `terrainGenerator`: draws the central column and then, for each step
   * outwards, the left and the right column, taking one random number per
   * hexagon in drawing order.
   */
  method TerrainGenerator(tiles: array2<Tile>, tessSize: int, hexSize: int, x: int, y: int, draws: seq<int>)
    requires |TerrainPlaces(tessSize, hexSize, x, y)| <= |draws|
    requires AllFit(tiles, hexSize, TerrainPlaces(tessSize, hexSize, x, y))
    modifies tiles
    ensures forall a, b :: 0 <= a < tiles.Length0 && 0 <= b < tiles.Length1 ==>
              tiles[a, b] == Painted(hexSize, TerrainPlaces(tessSize, hexSize, x, y), draws, a, b, old(tiles[a, b]))
  {
    var numHexagons := 2 * tessSize - 1;
    ghost var central := ColumnPlaces(x, y, hexSize, numHexagons);
    ghost var outer := OuterPlaces(tessSize, hexSize, x, y, tessSize);
    AllFitAppend(tiles, hexSize, central, outer);
    FillTerrainColumn(tiles, x, y, hexSize, numHexagons, draws);
    assert central + OuterPlaces(tessSize, hexSize, x, y, 1) == central;
    var used := if numHexagons < 0 then 0 else numHexagons;
    var i := 1;
    while i < tessSize
      invariant 1 <= i && (i <= tessSize || i == 1)
      invariant used == |central + OuterPlaces(tessSize, hexSize, x, y, i)|
      invariant |OuterPlaces(tessSize, hexSize, x, y, i)| <= |outer|
      invariant forall a, b :: 0 <= a < tiles.Length0 && 0 <= b < tiles.Length1 ==>
                  tiles[a, b] == Painted(hexSize, central + OuterPlaces(tessSize, hexSize, x, y, i), draws, a, b, old(tiles[a, b]))
    {
      ghost var done := central + OuterPlaces(tessSize, hexSize, x, y, i);
      ghost var columns := OuterColumns(tessSize, hexSize, x, y, i);
      OuterColumnsFit(tiles, tessSize, hexSize, x, y, i);
      OuterPlacesStep(central, tessSize, hexSize, x, y, i);
      label Before:
      FillOuterColumns(tiles, tessSize, hexSize, x, y, i, draws[used..]);
      forall a, b | 0 <= a < tiles.Length0 && 0 <= b < tiles.Length1
        ensures tiles[a, b] == Painted(hexSize, done + columns, draws, a, b, old(tiles[a, b]))
      {
        PaintedAppend(hexSize, done, columns, draws, a, b, old(tiles[a, b]));
      }
      used := used + 2 * if numHexagons - i < 0 then 0 else numHexagons - i;
      i := i + 1;
    }
    assert tessSize < 1 ==> OuterPlaces(tessSize, hexSize, x, y, tessSize) == OuterPlaces(tessSize, hexSize, x, y, i);
    assert central + OuterPlaces(tessSize, hexSize, x, y, i) == TerrainPlaces(tessSize, hexSize, x, y);
  }
}
