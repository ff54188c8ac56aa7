/** The sparse tile grid of the platformer: grid tiles keyed by their cell,
    an ordered list of off-grid decorations, the spatial queries that feed
    the collision resolver, category extraction and autotiling. */
module Tilemap {
  import opened Geometry

  /** A grid coordinate (x, y), or a pixel position for an off-grid tile. */
  type Cell = (int, int)

  /** A placed tile: its category, the index of its art variant, its position
      (grid units in the grid, pixels in the off-grid list). */
  datatype Tile = Tile(kind: string, variant: int, pos: Cell)

  datatype Option<T> = None | Some(value: T)

  /** Categories that collide. */
  const PhysicsTiles: set<string> := {"grass", "stone", "castle", "pipe", "yellowblock"}

  /** Categories whose variant the autotiler rewrites. */
  const AutotileTypes: set<string> := {"grass", "stone"}

  /** Every autotiled category is a physics category. */
  lemma CategoryTables(kind: string)
    requires kind in AutotileTypes
    ensures kind in PhysicsTiles
  {
  }

  /** The four orthogonal shifts, in the order the autotiler probes them. */
  const Shifts: seq<Cell> := [(1, 0), (-1, 0), (0, -1), (0, 1)]

  /** Same-category neighbour set to variant. The source keys its table by
      the sorted tuple of the set, a canonical encoding of the set itself. */
  const AutotileMap: map<set<Cell>, int> := map[
    {(1, 0), (0, 1)} := 0,
    {(1, 0), (0, 1), (-1, 0)} := 1,
    {(-1, 0), (0, 1)} := 2,
    {(-1, 0), (0, -1), (0, 1)} := 3,
    {(-1, 0), (0, -1)} := 4,
    {(-1, 0), (0, -1), (1, 0)} := 5,
    {(1, 0), (0, -1)} := 6,
    {(1, 0), (0, -1), (0, 1)} := 7,
    {(1, 0), (-1, 0), (0, 1), (0, -1)} := 8
  ]

  /** Every grid tile sits under the key of its own position. */
  ghost predicate WellKeyed(grid: map<Cell, Tile>) {
    forall c :: c in grid ==> grid[c].pos == c
  }

  function Shift(c: Cell, s: Cell): Cell { (c.0 + s.0, c.1 + s.1) }

  // ---------------------------------------------------------------------
  // Point lookup

  /** The cell whose tile_size square holds pixel (px, py). */
  ghost predicate Covers(c: Cell, ts: int, px: real, py: real)
    requires ts > 0
  {
    && (c.0 * ts) as real <= px < ((c.0 + 1) * ts) as real
    && (c.1 * ts) as real <= py < ((c.1 + 1) * ts) as real
  }

  /** Multiplying a strict integer order by a positive tile size. */
  lemma MulStep(a: int, b: int, ts: int)
    ensures a < b && ts > 0 ==> (a + 1) * ts <= b * ts
  {
    if a < b && ts > 0 {
      assert (b - (a + 1)) * ts >= 0;
    }
  }

  /** One cell covers each pixel. */
  lemma CoverUnique(c: Cell, d: Cell, ts: int, px: real, py: real)
    requires ts > 0 && Covers(c, ts, px, py) && Covers(d, ts, px, py)
    ensures c == d
  {
    MulStep(c.0, d.0, ts);
    MulStep(d.0, c.0, ts);
    MulStep(c.1, d.1, ts);
    MulStep(d.1, c.1, ts);
  }

  /** The cell found by flooring both coordinates covers the pixel, and is
      the only one that does. */
  lemma FloorCellCovers(ts: int, px: real, py: real)
    requires ts > 0
    ensures var loc := (FloorDivReal(px, ts), FloorDivReal(py, ts));
      Covers(loc, ts, px, py) && forall c :: Covers(c, ts, px, py) ==> c == loc
  {
    var loc := (FloorDivReal(px, ts), FloorDivReal(py, ts));
    assert Covers(loc, ts, px, py);
    forall c | Covers(c, ts, px, py) ensures c == loc {
      CoverUnique(c, loc, ts, px, py);
    }
  }

  /** `solid_check`: the tile under pixel (px, py) when it is a physics tile. */
  function SolidCheck(grid: map<Cell, Tile>, ts: int, px: real, py: real): (r: Option<Tile>)
    requires ts > 0 && WellKeyed(grid)
    ensures r.Some? ==> r.value.pos in grid && grid[r.value.pos] == r.value
    ensures r.Some? ==> r.value.kind in PhysicsTiles && Covers(r.value.pos, ts, px, py)
    ensures (exists c :: c in grid && grid[c].kind in PhysicsTiles && Covers(c, ts, px, py)) ==> r.Some?
  {
    var loc := (FloorDivReal(px, ts), FloorDivReal(py, ts));
    FloorCellCovers(ts, px, py);
    if loc in grid && grid[loc].kind in PhysicsTiles then Some(grid[loc]) else None
  }

  // ---------------------------------------------------------------------
  // Border-ring neighbourhood query

  /** The first `i` passes of the top/bottom loop: for each column, the cell
      in the top row and then the cell in the bottom row. */
  function RowCells(tl: Cell, y: nat, i: nat): seq<Cell> {
    if i == 0 then []
    else RowCells(tl, y, i - 1) + [(tl.0 + i - 1, tl.1), (tl.0 + i - 1, tl.1 + y + 1)]
  }

  /** The first `k` passes of the side loop (rows 1..k): left cell, then right cell. */
  function SideCells(tl: Cell, x: nat, k: nat): seq<Cell> {
    if k == 0 then []
    else SideCells(tl, x, k - 1) + [(tl.0, tl.1 + k), (tl.0 + x + 1, tl.1 + k)]
  }

  /** The cells `tiles_around` visits, in visiting order, for a footprint of
      x by y tiles and a box whose top-left cell is `tl`. */
  function BorderCells(tl: Cell, x: nat, y: nat): seq<Cell> {
    RowCells(tl, y, x + 2) + SideCells(tl, x, y)
  }

  /** The border of the (x+2) by (y+2) box whose top-left cell is `tl`. */
  ghost predicate OnBoxBorder(c: Cell, tl: Cell, x: nat, y: nat) {
    && tl.0 <= c.0 <= tl.0 + x + 1
    && tl.1 <= c.1 <= tl.1 + y + 1
    && (c.0 == tl.0 || c.0 == tl.0 + x + 1 || c.1 == tl.1 || c.1 == tl.1 + y + 1)
  }

  ghost predicate Distinct<T>(s: seq<T>) {
    forall i, j :: 0 <= i < j < |s| ==> s[i] != s[j]
  }

  /** The grid tiles found at `cells`, in order, absent cells skipped. */
  function PresentTiles(grid: map<Cell, Tile>, cells: seq<Cell>): (r: seq<Tile>)
    ensures |r| <= |cells|
    ensures forall i :: 0 <= i < |r| ==> r[i] in grid.Values
  {
    if cells == [] then []
    else
      var last := cells[|cells| - 1];
      PresentTiles(grid, cells[..|cells| - 1]) + (if last in grid then [grid[last]] else [])
  }

  /** The top-left cell of the box: one up and one left of the rounded grid
      position of pixel `pos`. */
  function BoxAnchor(ts: int, pos: (real, real)): (c: Cell)
    requires ts > 0
    ensures -0.5 <= pos.0 / ts as real - (c.0 + 1) as real <= 0.5
    ensures -0.5 <= pos.1 / ts as real - (c.1 + 1) as real <= 0.5
  {
    (RoundHalfEven(pos.0 / ts as real) - 1, RoundHalfEven(pos.1 / ts as real) - 1)
  }

  /** The footprint in whole tiles, a part tile counting as a tile. */
  function Footprint(ts: int, size: (nat, nat)): (f: (nat, nat))
    requires ts > 0
    ensures (f.0 - 1) * ts < size.0 <= f.0 * ts
    ensures (f.1 - 1) * ts < size.1 <= f.1 * ts
  {
    (CeilDiv(size.0, ts), CeilDiv(size.1, ts))
  }

  /** What `tiles_around(pos, size)` returns. */
  function TilesAroundSpec(grid: map<Cell, Tile>, ts: int, pos: (real, real), size: (nat, nat)): (r: seq<Tile>)
    requires ts > 0
    ensures var f := Footprint(ts, size); |r| <= 2 * (f.0 + 2) + 2 * f.1
    ensures forall i :: 0 <= i < |r| ==> r[i] in grid.Values
  {
    var f := Footprint(ts, size);
    RowCellsCount(BoxAnchor(ts, pos), f.1, f.0 + 2);
    SideCellsCount(BoxAnchor(ts, pos), f.0, f.1);
    PresentTiles(grid, BorderCells(BoxAnchor(ts, pos), f.0, f.1))
  }

  /** The ts by ts pixel rectangle of a grid tile. */
  function TileRect(t: Tile, ts: int): Rect {
    Rect(t.pos.0 * ts, t.pos.1 * ts, ts, ts)
  }

  /** The rectangles of the physics tiles among `tiles`, in order. */
  function PhysicsRects(tiles: seq<Tile>, ts: int): (r: seq<Rect>)
    ensures |r| <= |tiles|
    ensures forall i :: 0 <= i < |r| ==> r[i].w == ts && r[i].h == ts
  {
    if tiles == [] then []
    else
      var last := tiles[|tiles| - 1];
      PhysicsRects(tiles[..|tiles| - 1], ts) + (if last.kind in PhysicsTiles then [TileRect(last, ts)] else [])
  }

  /** What `physics_rects_around(pos, size)` returns. */
  function PhysicsRectsAt(grid: map<Cell, Tile>, ts: int, pos: (real, real), size: (nat, nat)): (r: seq<Rect>)
    requires ts > 0
    ensures forall i :: 0 <= i < |r| ==> r[i].w == ts && r[i].h == ts
  {
    PhysicsRects(TilesAroundSpec(grid, ts, pos, size), ts)
  }

  /** The resolver never has more candidates than the box has border cells. */
  lemma PhysicsRectsAtCount(grid: map<Cell, Tile>, ts: int, pos: (real, real), size: (nat, nat))
    requires ts > 0
    ensures var f := Footprint(ts, size); |PhysicsRectsAt(grid, ts, pos, size)| <= 2 * (f.0 + 2) + 2 * f.1
  {
  }

  lemma {:induction false} RowCellsCount(tl: Cell, y: nat, i: nat)
    ensures |RowCells(tl, y, i)| == 2 * i
  {
    if i > 0 { RowCellsCount(tl, y, i - 1); }
  }

  lemma {:induction false} SideCellsCount(tl: Cell, x: nat, k: nat)
    ensures |SideCells(tl, x, k)| == 2 * k
  {
    if k > 0 { SideCellsCount(tl, x, k - 1); }
  }

  lemma {:induction false} RowCellsMembers(tl: Cell, y: nat, i: nat, c: Cell)
    ensures c in RowCells(tl, y, i) <==>
      tl.0 <= c.0 < tl.0 + i && (c.1 == tl.1 || c.1 == tl.1 + y + 1)
  {
    if i > 0 { RowCellsMembers(tl, y, i - 1, c); }
  }

  lemma {:induction false} SideCellsMembers(tl: Cell, x: nat, k: nat, c: Cell)
    ensures c in SideCells(tl, x, k) <==>
      (c.0 == tl.0 || c.0 == tl.0 + x + 1) && tl.1 + 1 <= c.1 <= tl.1 + k
  {
    if k > 0 { SideCellsMembers(tl, x, k - 1, c); }
  }

  lemma {:induction false} RowCellsDistinct(tl: Cell, y: nat, i: nat)
    ensures Distinct(RowCells(tl, y, i))
  {
    if i > 0 {
      RowCellsDistinct(tl, y, i - 1);
      var p := RowCells(tl, y, i - 1);
      forall c | c in p ensures c.0 < tl.0 + i - 1 { RowCellsMembers(tl, y, i - 1, c); }
    }
  }

  lemma {:induction false} SideCellsDistinct(tl: Cell, x: nat, k: nat)
    ensures Distinct(SideCells(tl, x, k))
  {
    if k > 0 {
      SideCellsDistinct(tl, x, k - 1);
      var p := SideCells(tl, x, k - 1);
      forall c | c in p ensures c.1 < tl.1 + k { SideCellsMembers(tl, x, k - 1, c); }
    }
  }

  /** `tiles_around` visits 2(x+2) + 2y cells, no cell twice, and they are
      exactly the border of the (x+2) by (y+2) box anchored at `tl`. */
  lemma BorderCellsExact(tl: Cell, x: nat, y: nat)
    ensures |BorderCells(tl, x, y)| == 2 * (x + 2) + 2 * y
    ensures Distinct(BorderCells(tl, x, y))
    ensures forall c :: c in BorderCells(tl, x, y) <==> OnBoxBorder(c, tl, x, y)
  {
    RowCellsCount(tl, y, x + 2);
    SideCellsCount(tl, x, y);
    BorderCellsDistinct(tl, x, y);
    forall c ensures c in BorderCells(tl, x, y) <==> OnBoxBorder(c, tl, x, y) {
      RowCellsMembers(tl, y, x + 2, c);
      SideCellsMembers(tl, x, y, c);
    }
  }

  /** The top/bottom rows and the sides share no cell, so the border has no
      repeats. */
  lemma BorderCellsDistinct(tl: Cell, x: nat, y: nat)
    ensures Distinct(BorderCells(tl, x, y))
  {
    var rows, sides := RowCells(tl, y, x + 2), SideCells(tl, x, y);
    RowCellsDistinct(tl, y, x + 2);
    SideCellsDistinct(tl, x, y);
    var all := rows + sides;
    forall i, j | 0 <= i < j < |all| ensures all[i] != all[j] {
      if j >= |rows| && i < |rows| {
        RowCellsMembers(tl, y, x + 2, all[i]);
        SideCellsMembers(tl, x, y, all[j]);
      }
    }
  }

  /** The tiles of PresentTiles are the grid tiles at the listed cells. */
  lemma {:induction false} PresentTilesMembers(grid: map<Cell, Tile>, cells: seq<Cell>, t: Tile)
    requires WellKeyed(grid)
    ensures t in PresentTiles(grid, cells) <==> t.pos in cells && t.pos in grid && grid[t.pos] == t
  {
    if cells != [] {
      var init := cells[..|cells| - 1];
      PresentTilesMembers(grid, init, t);
      assert cells == init + [cells[|cells| - 1]];
    }
  }

  /** A tile is returned by `tiles_around` exactly when it is stored on the
      border of the box one tile larger than the entity's footprint. */
  lemma TilesAroundMembers(grid: map<Cell, Tile>, ts: int, pos: (real, real), size: (nat, nat), t: Tile)
    requires ts > 0 && WellKeyed(grid)
    ensures var f := Footprint(ts, size);
      t in TilesAroundSpec(grid, ts, pos, size) <==>
        t.pos in grid && grid[t.pos] == t && OnBoxBorder(t.pos, BoxAnchor(ts, pos), f.0, f.1)
  {
    var f := Footprint(ts, size);
    BorderCellsExact(BoxAnchor(ts, pos), f.0, f.1);
    PresentTilesMembers(grid, BorderCells(BoxAnchor(ts, pos), f.0, f.1), t);
  }

  /** For an entity at most one tile in each direction, `tiles_around`
      returns the stored tiles among the eight neighbours of the rounded cell,
      and never the tile of that cell itself. */
  lemma TilesAroundOneTile(grid: map<Cell, Tile>, ts: int, pos: (real, real), size: (nat, nat), t: Tile)
    requires ts > 0 && WellKeyed(grid)
    requires 0 < size.0 <= ts && 0 < size.1 <= ts
    ensures var center := (RoundHalfEven(pos.0 / ts as real), RoundHalfEven(pos.1 / ts as real));
      t in TilesAroundSpec(grid, ts, pos, size) <==>
        && t.pos in grid && grid[t.pos] == t
        && -1 <= t.pos.0 - center.0 <= 1 && -1 <= t.pos.1 - center.1 <= 1
        && t.pos != center
  {
    var f := Footprint(ts, size);
    MulStep(0, f.0, ts);
    MulStep(1, f.0 - 1, ts);
    MulStep(0, f.1, ts);
    MulStep(1, f.1 - 1, ts);
    TilesAroundMembers(grid, ts, pos, size, t);
  }

  lemma {:induction false} PhysicsRectsMembers(tiles: seq<Tile>, ts: int, r: Rect)
    ensures r in PhysicsRects(tiles, ts) <==> exists t :: t in tiles && t.kind in PhysicsTiles && r == TileRect(t, ts)
  {
    if tiles != [] {
      var init := tiles[..|tiles| - 1];
      PhysicsRectsMembers(init, ts, r);
      assert tiles == init + [tiles[|tiles| - 1]];
    }
  }

  /** `physics_rects_around` gives one tile-sized square per physics tile that
      `tiles_around` returns, placed at the tile's pixel position, and no
      other rectangle. */
  lemma PhysicsRectsAtMembers(grid: map<Cell, Tile>, ts: int, pos: (real, real), size: (nat, nat), r: Rect)
    requires ts > 0 && WellKeyed(grid)
    ensures var f := Footprint(ts, size);
      r in PhysicsRectsAt(grid, ts, pos, size) <==>
        exists c :: c in grid && grid[c].kind in PhysicsTiles
          && OnBoxBorder(c, BoxAnchor(ts, pos), f.0, f.1)
          && r == Rect(c.0 * ts, c.1 * ts, ts, ts)
  {
    var f := Footprint(ts, size);
    var tiles := TilesAroundSpec(grid, ts, pos, size);
    PhysicsRectsMembers(tiles, ts, r);
    if r in PhysicsRectsAt(grid, ts, pos, size) {
      var t :| t in tiles && t.kind in PhysicsTiles && r == TileRect(t, ts);
      TilesAroundMembers(grid, ts, pos, size, t);
    }
    if exists c :: c in grid && grid[c].kind in PhysicsTiles
          && OnBoxBorder(c, BoxAnchor(ts, pos), f.0, f.1) && r == Rect(c.0 * ts, c.1 * ts, ts, ts) {
      var c :| c in grid && grid[c].kind in PhysicsTiles
          && OnBoxBorder(c, BoxAnchor(ts, pos), f.0, f.1) && r == Rect(c.0 * ts, c.1 * ts, ts, ts);
      TilesAroundMembers(grid, ts, pos, size, grid[c]);
      assert r == TileRect(grid[c], ts);
    }
  }

  // ---------------------------------------------------------------------
  // Extraction

  /** The tile's (type, variant) pair is one of `ids`. */
  predicate Matches(t: Tile, ids: seq<(string, int)>) {
    (t.kind, t.variant) in ids
  }

  /** The matching tiles of `s`, in order. */
  function Matching(s: seq<Tile>, ids: seq<(string, int)>): (r: seq<Tile>)
    ensures |r| <= |s|
    ensures forall i :: 0 <= i < |r| ==> Matches(r[i], ids)
  {
    if s == [] then []
    else Matching(s[..|s| - 1], ids) + (if Matches(s[|s| - 1], ids) then [s[|s| - 1]] else [])
  }

  /** The other tiles of `s`, in order. */
  function NotMatching(s: seq<Tile>, ids: seq<(string, int)>): (r: seq<Tile>)
    ensures |r| <= |s|
    ensures forall i :: 0 <= i < |r| ==> !Matches(r[i], ids)
  {
    if s == [] then []
    else NotMatching(s[..|s| - 1], ids) + (if Matches(s[|s| - 1], ids) then [] else [s[|s| - 1]])
  }

  /** Python's `list.remove(t)`: drop the first element equal to `t`. */
  function RemoveFirst(s: seq<Tile>, t: Tile): (r: seq<Tile>)
    ensures |r| == if t in s then |s| - 1 else |s|
    ensures t !in s ==> r == s
  {
    if s == [] then []
    else if s[0] == t then s[1..]
    else [s[0]] + RemoveFirst(s[1..], t)
  }

  /** `remove` cuts out exactly the first occurrence of `t`, at index `k`,
      keeping the order of everything else. */
  lemma {:induction false} RemoveFirstCutsFirst(s: seq<Tile>, t: Tile, k: nat)
    requires k < |s| && s[k] == t && t !in s[..k]
    ensures RemoveFirst(s, t) == s[..k] + s[k + 1..]
  {
    if k > 0 {
      assert s[0] in s[..k];
      assert s[1..][..k - 1] == s[1..k];
      RemoveFirstCutsFirst(s[1..], t, k - 1);
      assert s[..k] == [s[0]] + s[1..][..k - 1];
    }
  }

  /** The grid cells whose tile matches. */
  ghost function MatchedCells(grid: map<Cell, Tile>, ids: seq<(string, int)>): set<Cell> {
    set c | c in grid && Matches(grid[c], ids)
  }

  /** The grid without its matching tiles. */
  function GridWithout(grid: map<Cell, Tile>, ids: seq<(string, int)>): (g: map<Cell, Tile>)
    ensures forall c :: c in g <==> c in grid && !Matches(grid[c], ids)
    ensures forall c :: c in g ==> g[c] == grid[c]
  {
    map c | c in grid && !Matches(grid[c], ids) :: grid[c]
  }

  /** A copy of a grid tile with its position converted to pixels. */
  function InPixels(t: Tile, ts: int): (u: Tile)
    ensures u.kind == t.kind && u.variant == t.variant
    ensures u.pos == (TileRect(t, ts).x, TileRect(t, ts).y)
  {
    t.(pos := (t.pos.0 * ts, t.pos.1 * ts))
  }

  /** The pixel copies of the grid tiles at `cells`, in order. */
  function PixelCopies(grid: map<Cell, Tile>, cells: seq<Cell>, ts: int): (r: seq<Tile>)
    requires forall c :: c in cells ==> c in grid
    ensures |r| == |cells|
    ensures forall i :: 0 <= i < |cells| ==> r[i] == InPixels(grid[cells[i]], ts)
  {
    if cells == [] then []
    else PixelCopies(grid, cells[..|cells| - 1], ts) + [InPixels(grid[cells[|cells| - 1]], ts)]
  }

  /** Every tile of a list is either extracted or kept, in order, and none
      is lost or duplicated. */
  lemma {:induction false} MatchingPartition(s: seq<Tile>, ids: seq<(string, int)>)
    ensures |Matching(s, ids)| + |NotMatching(s, ids)| == |s|
    ensures multiset(Matching(s, ids)) + multiset(NotMatching(s, ids)) == multiset(s)
    ensures forall t :: t in Matching(s, ids) ==> Matches(t, ids)
    ensures forall t :: t in NotMatching(s, ids) ==> !Matches(t, ids)
  {
    if s != [] {
      var init := s[..|s| - 1];
      MatchingPartition(init, ids);
      assert s == init + [s[|s| - 1]];
    }
  }

  /** A second extraction with the same pairs after a removing one finds
      nothing, in either store. */
  lemma ExtractAgainFindsNothing(grid: map<Cell, Tile>, offgrid: seq<Tile>, ids: seq<(string, int)>)
    ensures Matching(NotMatching(offgrid, ids), ids) == []
    ensures MatchedCells(GridWithout(grid, ids), ids) == {}
  {
    MatchingPartition(offgrid, ids);
    NoMatchesInUnmatched(NotMatching(offgrid, ids), ids);
  }

  lemma {:induction false} NoMatchesInUnmatched(s: seq<Tile>, ids: seq<(string, int)>)
    requires forall t :: t in s ==> !Matches(t, ids)
    ensures Matching(s, ids) == []
  {
    if s != [] { NoMatchesInUnmatched(s[..|s| - 1], ids); }
  }

  /** Removing the first copy of a matching tile that follows a run of
      non-matching tiles removes that very tile. */
  lemma {:induction false} RemoveFirstAfterPrefix(prefix: seq<Tile>, t: Tile, rest: seq<Tile>, ids: seq<(string, int)>)
    requires forall u :: u in prefix ==> !Matches(u, ids)
    requires Matches(t, ids)
    ensures RemoveFirst(prefix + [t] + rest, t) == prefix + rest
  {
    if prefix == [] {
      assert prefix + [t] + rest == [t] + rest;
    } else {
      assert (prefix + [t] + rest)[1..] == prefix[1..] + [t] + rest;
      RemoveFirstAfterPrefix(prefix[1..], t, rest, ids);
    }
  }

  /** One pass of the off-grid walk of `extract`: the matches and the kept
      tiles grow by the visited tile, and removing a matching tile from the
      partly filtered list removes the visited copy. */
  lemma ExtractStep(s: seq<Tile>, i: nat, ids: seq<(string, int)>)
    requires i < |s|
    ensures Matching(s[..i + 1], ids) == Matching(s[..i], ids) + (if Matches(s[i], ids) then [s[i]] else [])
    ensures !Matches(s[i], ids) ==>
      NotMatching(s[..i + 1], ids) + s[i + 1..] == NotMatching(s[..i], ids) + s[i..]
    ensures Matches(s[i], ids) ==>
      RemoveFirst(NotMatching(s[..i], ids) + s[i..], s[i]) == NotMatching(s[..i + 1], ids) + s[i + 1..]
  {
    assert s[..i + 1][..i] == s[..i];
    assert s[i..] == [s[i]] + s[i + 1..];
    if Matches(s[i], ids) {
      MatchingPartition(s[..i], ids);
      RemoveFirstAfterPrefix(NotMatching(s[..i], ids), s[i], s[i + 1..], ids);
      assert NotMatching(s[..i], ids) + s[i..] == NotMatching(s[..i], ids) + [s[i]] + s[i + 1..];
    } else {
      assert NotMatching(s[..i + 1], ids) == NotMatching(s[..i], ids) + [s[i]];
    }
  }

  // ---------------------------------------------------------------------
  // Autotiling

  /** The shifts at which `t` has a neighbour of its own category, found by
      probing from the tile's own position. */
  ghost function Neighbours(grid: map<Cell, Tile>, t: Tile): (n: set<Cell>)
    ensures forall s :: s in n ==> s in Shifts && Shift(t.pos, s) in grid && grid[Shift(t.pos, s)].kind == t.kind
  {
    set s | s in Shifts && Shift(t.pos, s) in grid && grid[Shift(t.pos, s)].kind == t.kind
  }

  /** The tile after the autotiler's rule: a variant from the table when the
      category is autotiled and the neighbour set is a key, else unchanged. */
  ghost function AutotiledTile(grid: map<Cell, Tile>, t: Tile): (u: Tile)
    ensures u.kind == t.kind && u.pos == t.pos
    ensures u != t ==> t.kind in AutotileTypes && u.variant in AutotileMap.Values
  {
    var n := Neighbours(grid, t);
    if t.kind in AutotileTypes && n in AutotileMap then t.(variant := AutotileMap[n]) else t
  }

  /** The grid after one pass of `autotile`. */
  ghost function AutotiledGrid(grid: map<Cell, Tile>): (g: map<Cell, Tile>)
    ensures SameLayout(g, grid)
  {
    map c | c in grid :: AutotiledTile(grid, grid[c])
  }

  /** Grids that agree on cells, positions and categories: they differ in
      variants at most. */
  ghost predicate SameLayout(g: map<Cell, Tile>, h: map<Cell, Tile>) {
    g.Keys == h.Keys && forall c :: c in g ==> g[c].kind == h[c].kind && g[c].pos == h[c].pos
  }

  /** The neighbour set depends on layout only, never on variants. */
  lemma NeighboursOfLayout(g: map<Cell, Tile>, h: map<Cell, Tile>, t: Tile, u: Tile)
    requires SameLayout(g, h) && t.kind == u.kind && t.pos == u.pos
    ensures Neighbours(g, t) == Neighbours(h, u)
  {
  }

  /** Which of the four shifts a neighbour set holds. */
  function Signature(k: set<Cell>): (bool, bool, bool, bool) {
    ((1, 0) in k, (-1, 0) in k, (0, -1) in k, (0, 1) in k)
  }

  /** The table keys in the order the source lists them. */
  const AutotileKeys: seq<set<Cell>> := [
    {(1, 0), (0, 1)}, {(1, 0), (0, 1), (-1, 0)}, {(-1, 0), (0, 1)},
    {(-1, 0), (0, -1), (0, 1)}, {(-1, 0), (0, -1)}, {(-1, 0), (0, -1), (1, 0)},
    {(1, 0), (0, -1)}, {(1, 0), (0, -1), (0, 1)}, {(1, 0), (-1, 0), (0, 1), (0, -1)}
  ]

  /** The table has nine distinct keys, each a set of orthogonal shifts, and
      gives the i-th of them variant i, so its variants are 0..8, each once. */
  lemma AutotileTable()
    ensures forall i :: 0 <= i < 9 ==> AutotileKeys[i] in AutotileMap && AutotileMap[AutotileKeys[i]] == i
    ensures forall i, j :: 0 <= i < j < 9 ==> AutotileKeys[i] != AutotileKeys[j]
    ensures forall k :: k in AutotileMap <==> k in AutotileKeys
    ensures forall k :: k in AutotileMap ==> 0 <= AutotileMap[k] <= 8
    ensures forall k :: k in AutotileMap ==> forall s :: s in k ==> s in Shifts
  {
    var sigs := seq(9, i requires 0 <= i < 9 => Signature(AutotileKeys[i]));
    assert sigs == [(true, false, false, true), (true, true, false, true), (false, true, false, true),
                    (false, true, true, true), (false, true, true, false), (true, true, true, false),
                    (true, false, true, false), (true, false, true, true), (true, true, true, true)];
    forall i, j | 0 <= i < j < 9 ensures AutotileKeys[i] != AutotileKeys[j] {
      assert sigs[i] != sigs[j];
    }
  }

  /** Autotiling rewrites variants only: every cell keeps its category and
      position, a tile changes only when its category is autotiled and its
      neighbour set is a table key, and then to a variant in 0..8. */
  lemma AutotileChangesVariantsOnly(grid: map<Cell, Tile>)
    ensures SameLayout(grid, AutotiledGrid(grid))
    ensures forall c :: c in grid && AutotiledGrid(grid)[c] != grid[c] ==>
      && grid[c].kind in AutotileTypes
      && Neighbours(grid, grid[c]) in AutotileMap
      && AutotiledGrid(grid)[c].variant == AutotileMap[Neighbours(grid, grid[c])]
      && 0 <= AutotiledGrid(grid)[c].variant <= 8
  {
    AutotileTable();
  }

  /** A tile without a same-category orthogonal neighbour keeps its variant. */
  lemma AutotileIsolatedKeepsVariant(grid: map<Cell, Tile>, c: Cell)
    requires c in grid && Neighbours(grid, grid[c]) == {}
    ensures AutotiledGrid(grid)[c] == grid[c]
  {
    assert {} !in AutotileMap;
  }

  /** Running the autotiler twice gives the grid of running it once. */
  lemma AutotileIdempotent(grid: map<Cell, Tile>)
    ensures AutotiledGrid(AutotiledGrid(grid)) == AutotiledGrid(grid)
  {
    var once := AutotiledGrid(grid);
    AutotileChangesVariantsOnly(grid);
    forall c | c in once ensures AutotiledTile(once, once[c]) == once[c] {
      NeighboursOfLayout(once, grid, once[c], grid[c]);
    }
  }

  // ---------------------------------------------------------------------
  // The tile map object

  class Tilemap {
    var tileSize: int
    /** Grid tiles by cell; the source spells the key "x;y". */
    var grid: map<Cell, Tile>
    /** Off-grid tiles in placement (drawing) order. */
    var offgrid: seq<Tile>

    ghost predicate Valid()
      reads this
    {
      tileSize > 0 && WellKeyed(grid)
    }

    constructor (tileSize: int)
      requires tileSize > 0
      ensures Valid()
      ensures this.tileSize == tileSize && grid == map[] && offgrid == []
    {
      this.tileSize := tileSize;
      grid := map[];
      offgrid := [];
    }

    /** `tiles_around`: walk the border of the box and collect stored tiles. */
    method TilesAround(pos: (real, real), size: (nat, nat)) returns (tiles: seq<Tile>)
      requires Valid()
      ensures tiles == TilesAroundSpec(grid, tileSize, pos, size)
    {
      var x, y := CeilDiv(size.0, tileSize), CeilDiv(size.1, tileSize);
      var tl := (RoundHalfEven(pos.0 / tileSize as real) - 1, RoundHalfEven(pos.1 / tileSize as real) - 1);
      var box: seq<Cell> := [];
      for i := 0 to x + 2
        invariant box == RowCells(tl, y, i)
      {
        box := box + [(tl.0 + i, tl.1), (tl.0 + i, tl.1 + y + 1)];
      }
      for i := 1 to y + 1
        invariant box == RowCells(tl, y, x + 2) + SideCells(tl, x, i - 1)
      {
        box := box + [(tl.0, tl.1 + i), (tl.0 + x + 1, tl.1 + i)];
      }
      assert box == BorderCells(tl, x, y);
      assert tl == BoxAnchor(tileSize, pos) && (x, y) == Footprint(tileSize, size);
      tiles := [];
      for j := 0 to |box|
        invariant tiles == PresentTiles(grid, box[..j])
      {
        assert box[..j + 1][..j] == box[..j];
        if box[j] in grid {
          tiles := tiles + [grid[box[j]]];
        }
      }
      assert box[..|box|] == box;
    }

    /** `physics_rects_around`: the tile squares of the solid tiles around. */
    method PhysicsRectsAround(pos: (real, real), size: (nat, nat)) returns (rects: seq<Rect>)
      requires Valid()
      ensures rects == PhysicsRectsAt(grid, tileSize, pos, size)
    {
      var tiles := TilesAround(pos, size);
      rects := [];
      for j := 0 to |tiles|
        invariant rects == PhysicsRects(tiles[..j], tileSize)
      {
        assert tiles[..j + 1][..j] == tiles[..j];
        if tiles[j].kind in PhysicsTiles {
          rects := rects + [Rect(tiles[j].pos.0 * tileSize, tiles[j].pos.1 * tileSize, tileSize, tileSize)];
        }
      }
      assert tiles[..|tiles|] == tiles;
    }

    /** `extract`: copies of the matching tiles, off-grid ones first in list
        order with their pixel position, then grid ones converted to pixels
        in the order the grid is walked (`order`); unless `keep`, the matching
        tiles leave both stores. */
    method Extract(ids: seq<(string, int)>, keep: bool) returns (matches: seq<Tile>, ghost order: seq<Cell>)
      requires Valid()
      modifies this
      ensures Valid() && tileSize == old(tileSize)
      ensures Distinct(order) && (forall c :: c in order <==> c in MatchedCells(old(grid), ids))
      ensures matches == Matching(old(offgrid), ids) + PixelCopies(old(grid), order, tileSize)
      ensures keep ==> grid == old(grid) && offgrid == old(offgrid)
      ensures !keep ==> grid == GridWithout(old(grid), ids) && offgrid == NotMatching(old(offgrid), ids)
    {
      var offMatches := ExtractOffgrid(ids, keep);
      var gridMatches;
      gridMatches, order := ExtractGrid(ids, keep);
      matches := offMatches + gridMatches;
    }

    /** The off-grid half of `extract`: walk a copy of the list; each match
        is copied out and, unless `keep`, removed with `list.remove`. */
    method ExtractOffgrid(ids: seq<(string, int)>, keep: bool) returns (matches: seq<Tile>)
      requires Valid()
      modifies this
      ensures Valid() && grid == old(grid) && tileSize == old(tileSize)
      ensures matches == Matching(old(offgrid), ids)
      ensures offgrid == if keep then old(offgrid) else NotMatching(old(offgrid), ids)
    {
      matches := [];
      var snapshot := offgrid;
      for i := 0 to |snapshot|
        invariant matches == Matching(snapshot[..i], ids)
        invariant keep ==> offgrid == snapshot
        invariant !keep ==> offgrid == NotMatching(snapshot[..i], ids) + snapshot[i..]
        invariant grid == old(grid) && tileSize == old(tileSize)
      {
        var tile := snapshot[i];
        ExtractStep(snapshot, i, ids);
        if Matches(tile, ids) {
          matches := matches + [tile];
          if !keep {
            offgrid := RemoveFirst(offgrid, tile);
          }
        }
      }
      assert snapshot[..|snapshot|] == snapshot;
    }

    /** The grid half of `extract`: walk the cells, copy each match out in
        pixel units and note its cell; unless `keep`, delete the noted cells
        after the walk. */
    method ExtractGrid(ids: seq<(string, int)>, keep: bool) returns (matches: seq<Tile>, ghost order: seq<Cell>)
      requires Valid()
      modifies this
      ensures Valid() && offgrid == old(offgrid) && tileSize == old(tileSize)
      ensures Distinct(order) && (forall c :: c in order <==> c in MatchedCells(old(grid), ids))
      ensures matches == PixelCopies(old(grid), order, tileSize)
      ensures grid == if keep then old(grid) else GridWithout(old(grid), ids)
    {
      var notkeep;
      matches, order, notkeep := CollectMatches(ids, keep);
      DeleteCells(notkeep);
    }

    /** The grid walk of `extract`: the pixel copies of the matching tiles,
        in the walk's order, and the cells to delete afterwards. */
    method CollectMatches(ids: seq<(string, int)>, keep: bool) returns (matches: seq<Tile>, ghost order: seq<Cell>, notkeep: seq<Cell>)
      requires Valid()
      ensures Distinct(order) && (forall c :: c in order <==> c in MatchedCells(grid, ids))
      ensures matches == PixelCopies(grid, order, tileSize)
      ensures notkeep == if keep then [] else order
    {
      matches := [];
      notkeep := [];
      var todo := grid.Keys;
      order := [];
      while todo != {}
        invariant todo <= grid.Keys
        invariant Distinct(order)
        invariant forall c :: c in order <==> c in MatchedCells(grid, ids) && c !in todo
        invariant matches == PixelCopies(grid, order, tileSize)
        invariant notkeep == if keep then [] else order
        decreases todo
      {
        var loc :| loc in todo;
        var tile := grid[loc];
        if Matches(tile, ids) {
          var copy := tile.(pos := (tile.pos.0 * tileSize, tile.pos.1 * tileSize));
          assert (order + [loc])[..|order|] == order;
          assert PixelCopies(grid, order + [loc], tileSize) == matches + [copy];
          matches := matches + [copy];
          order := order + [loc];
          if !keep {
            notkeep := notkeep + [loc];
          }
        }
        todo := todo - {loc};
      }
    }

    /** The deletion loop after the grid walk of `extract`. */
    method DeleteCells(cells: seq<Cell>)
      requires Valid()
      modifies this
      ensures Valid() && offgrid == old(offgrid) && tileSize == old(tileSize)
      ensures forall c :: c in grid <==> c in old(grid) && c !in cells
      ensures forall c :: c in grid ==> grid[c] == old(grid)[c]
    {
      for k := 0 to |cells|
        invariant forall c :: c in grid <==> c in old(grid) && c !in cells[..k]
        invariant forall c :: c in grid ==> grid[c] == old(grid)[c]
        invariant tileSize == old(tileSize) && offgrid == old(offgrid)
      {
        grid := grid - {cells[k]};
      }
      assert cells[..|cells|] == cells;
    }

    /** `autotile`: one pass over the grid assigning table variants. */
    method Autotile()
      requires Valid()
      modifies this
      ensures Valid()
      ensures grid == AutotiledGrid(old(grid))
      ensures offgrid == old(offgrid) && tileSize == old(tileSize)
    {
      ghost var g0 := grid;
      var todo := grid.Keys;
      while todo != {}
        invariant todo <= grid.Keys
        invariant SameLayout(grid, g0)
        invariant forall c :: c in grid && c !in todo ==> grid[c] == AutotiledTile(g0, g0[c])
        invariant forall c :: c in todo ==> grid[c] == g0[c]
        invariant offgrid == old(offgrid) && tileSize == old(tileSize)
        decreases todo
      {
        var loc :| loc in todo;
        var tile := grid[loc];
        var neighbours: set<Cell> := {};
        for k := 0 to |Shifts|
          invariant neighbours == set s | s in Shifts[..k] && Shift(tile.pos, s) in grid && grid[Shift(tile.pos, s)].kind == tile.kind
        {
          var checkLoc := Shift(tile.pos, Shifts[k]);
          if checkLoc in grid && grid[checkLoc].kind == tile.kind {
            neighbours := neighbours + {Shifts[k]};
          }
        }
        assert Shifts[..|Shifts|] == Shifts;
        assert neighbours == Neighbours(grid, tile);
        NeighboursOfLayout(grid, g0, tile, g0[loc]);
        if tile.kind in AutotileTypes && neighbours in AutotileMap {
          grid := grid[loc := tile.(variant := AutotileMap[neighbours])];
        }
        todo := todo - {loc};
      }
      assert WellKeyed(grid);
    }

    /** The editor's left click on the grid: place a tile at `cell`,
        replacing whatever was there. */
    method Place(cell: Cell, kind: string, variant: int)
      requires Valid()
      modifies this
      ensures Valid()
      ensures grid == old(grid)[cell := Tile(kind, variant, cell)]
      ensures offgrid == old(offgrid) && tileSize == old(tileSize)
    {
      grid := grid[cell := Tile(kind, variant, cell)];
    }

    /** The editor's right click on the grid: delete the tile at `cell`,
        if any. */
    method Remove(cell: Cell)
      requires Valid()
      modifies this
      ensures Valid()
      ensures grid == old(grid) - {cell}
      ensures offgrid == old(offgrid) && tileSize == old(tileSize)
    {
      if cell in grid {
        grid := grid - {cell};
      }
    }

    /** The editor's left click off the grid: append a decoration. */
    method PlaceOffgrid(kind: string, variant: int, pixel: Cell)
      requires Valid()
      modifies this
      ensures Valid()
      ensures offgrid == old(offgrid) + [Tile(kind, variant, pixel)]
      ensures grid == old(grid) && tileSize == old(tileSize)
    {
      offgrid := offgrid + [Tile(kind, variant, pixel)];
    }
  }
}
