# Platformer core: tile grid, collision resolver, player counters, animation

This project is a Dafny model of the deterministic core of a small pygame
platformer. It covers three pieces.

- **The tile map** (`tilemap.dfy`, module `Tilemap`). It has two stores:
  - a sparse grid of tiles keyed by their cell;
  - an ordered list of off-grid decorations.

  It provides the point lookup used by enemies (`solid_check`) and the border-ring neighbourhood query the collision resolver reads (`tiles_around`, `physics_rects_around`). It also covers category extraction with optional removal (`extract`), one-pass autotiling against the nine-entry neighbour table (`autotile`), and the level editor's place and delete clicks.
- **The physics entity and the player** (`entities.dfy`, module `Entities`):
  - the axis-separated collision resolver of `PhysicsEntity.update`, with its four-way contact mask, facing and gravity;
  - the player's air time, jump budget, wall slide, wall jump, dash timer, dash burst and friction.
- **The sprite animation counter** (`utils.dfy`, module `Utils`). It is a looping or one-shot frame counter with a `done` latch, plus the choice of image for the current frame.

`geometry.dfy` (module `Geometry`) holds the Python number semantics the game relies on and pygame's integer rectangle:
- floor division `//`;
- `math.ceil` of a quotient;
- round-half-to-even `round`;
- truncating `int()`.

The model follows these representation choices:
- Entity positions, velocities and displacements are exact reals standing for Python floats.
- The collision rectangle truncates the position, as pygame does.
- The resolver writes whole-pixel coordinates back into the position.
- The grid is a `map` from cells to tiles, with the invariant that every tile is stored under its own position. The autotiler relies on this when it probes neighbours from a tile's `pos` rather than from its key.
- The resolver is specified by `Resolve`, which is a fold (`Sweep`) over the candidate rectangles. The entity rectangle is carried from one candidate to the next, so the last overlapping candidate decides the final edge.
  - The X candidates come from the position before the move.
  - The Y candidates are queried afresh after the X pass.
  - The position is overwritten from the rectangle whenever anything overlapped, even with zero displacement on that axis.

One consequence of the border-ring query is proved in `TilesAroundOneTile`. For a one-tile entity, the query never returns the tile of the cell the entity's position rounds to. An entity can therefore overlap that one tile without it being tested. The model keeps this behaviour as the code has it.

## Model

| member | source | states |
|---|---|---|
| Geometry.FloorDiv | GAME/scripts/utils.py:44 | quotient by a positive divisor rounded down, b*q <= a < b*q + b; for the non-negative frame of `int(frame / img_duration)` this is the truncated quotient |
| Geometry.FloorDivReal | GAME/scripts/tilemap.py:37 | `pos // tile_size` on a float position: the integer q with q*ts <= a < (q+1)*ts |
| Geometry.CeilDiv | GAME/scripts/tilemap.py:80 | `math.ceil(a / b)`: the least q with a <= b*q |
| Geometry.RoundHalfEven | GAME/scripts/tilemap.py:82-83 | Python 3 `round`: within 0.5 of the argument, and even on a tie |
| Geometry.RoundHalfEvenUnique | GAME/scripts/tilemap.py:82-83 | those two properties determine the rounded value uniquely |
| Geometry.Trunc | GAME/scripts/entities.py:30 | pygame's float-to-int conversion: within 1 of the value, toward zero, same sign |
| Geometry.CollidesSharePixel | GAME/scripts/entities.py:64 | for rectangles with area, `colliderect` holds exactly when some pixel lies inside both |
| Geometry.TouchingDoNotCollide | GAME/scripts/entities.py:64-70 | `colliderect` is strict: rectangles that only share an edge, as a clamped entity and its tile do, do not collide |
| Tilemap.CoverUnique | GAME/scripts/tilemap.py:37 | exactly one cell's square contains a pixel |
| Tilemap.FloorCellCovers | GAME/scripts/tilemap.py:37 | the cell from flooring both coordinates is the one cell whose square holds the pixel |
| Tilemap.SolidCheck | GAME/scripts/tilemap.py:33-40 | returns the stored tile of the cell under the pixel exactly when that tile's type is a physics type; otherwise nothing |
| Tilemap.CategoryTables | GAME/scripts/tilemap.py:22-23 | every autotiled type is also a physics type |
| Tilemap.BoxAnchor | GAME/scripts/tilemap.py:82-83 | one cell up and left of `round(pos / ts)`: the anchor plus one is within half a tile of the position in grid units on each axis |
| Tilemap.Footprint | GAME/scripts/tilemap.py:80 | the entity's size in whole tiles, a part tile counting as a tile |
| Tilemap.BorderCellsExact | GAME/scripts/tilemap.py:84-89 | the visited cells number 2(x+2)+2y, are pairwise distinct, and are exactly the border of the (x+2) by (y+2) box |
| Tilemap.BorderCellsDistinct | GAME/scripts/tilemap.py:84-89 | the top and bottom rows and the two sides share no cell, so no cell is visited twice |
| Tilemap.PresentTiles | GAME/scripts/tilemap.py:90-93 | at most one tile per visited cell, and every tile returned is a stored grid tile |
| Tilemap.PresentTilesMembers | GAME/scripts/tilemap.py:90-93 | the collected tiles are exactly the stored tiles at visited cells |
| Tilemap.TilesAroundSpec | GAME/scripts/tilemap.py:78-94 | at most 2(x+2)+2y tiles for a footprint of x by y tiles, every one a stored grid tile |
| Tilemap.TilesAroundMembers | GAME/scripts/tilemap.py:78-94 | `tiles_around` returns a tile iff it is stored on the border of the box anchored at round(pos/ts) - 1 |
| Tilemap.TilesAroundOneTile | GAME/scripts/tilemap.py:80-93 | for a footprint of one tile: exactly the stored tiles among the 8 neighbours of the rounded cell, never that cell itself |
| Tilemap.PhysicsRects | GAME/scripts/tilemap.py:114-118 | at most one rectangle per tile, each a tile_size by tile_size square |
| Tilemap.PhysicsRectsAt | GAME/scripts/tilemap.py:110-118 | every candidate the resolver receives is a tile_size by tile_size square |
| Tilemap.PhysicsRectsAtCount | GAME/scripts/tilemap.py:110-118 | there are never more candidates than border cells, 2(x+2)+2y |
| Tilemap.PhysicsRectsMembers | GAME/scripts/tilemap.py:114-118 | the rectangles are exactly the tile squares of the physics-type tiles of the list |
| Tilemap.PhysicsRectsAtMembers | GAME/scripts/tilemap.py:110-118 | `physics_rects_around` yields a rectangle iff it is the ts by ts square of a stored physics tile on the box border |
| Tilemap.Matching | GAME/scripts/tilemap.py:47-49 | the off-grid matches, no more than the list holds, each with its (type, variant) among the pairs |
| Tilemap.NotMatching | GAME/scripts/tilemap.py:47-51 | the off-grid tiles left after a removing extraction, no more than the list holds, none of them matching |
| Tilemap.RemoveFirst | GAME/scripts/tilemap.py:51 | `list.remove`: one element shorter when the tile occurs, the list unchanged when it does not |
| Tilemap.RemoveFirstCutsFirst | GAME/scripts/tilemap.py:51 | `list.remove` cuts out exactly the first occurrence and keeps the order of the rest |
| Tilemap.InPixels | GAME/scripts/tilemap.py:57-60 | the copy keeps type and variant, and its position is the top-left pixel of the tile's square |
| Tilemap.GridWithout | GAME/scripts/tilemap.py:61-65 | the grid after removal keeps exactly the non-matching cells, with their tiles unchanged |
| Tilemap.PixelCopies | GAME/scripts/tilemap.py:55-60 | one copy per matched cell, in visiting order, with the position scaled by the tile size |
| Tilemap.MatchingPartition | GAME/scripts/tilemap.py:47-51 | the extracted and the kept off-grid tiles partition the list as a multiset; the former all match and the latter none do |
| Tilemap.ExtractAgainFindsNothing | GAME/scripts/tilemap.py:42-67 | after a removing extraction, extracting the same pairs again finds nothing in either store |
| Tilemap.RemoveFirstAfterPrefix | GAME/scripts/tilemap.py:51 | `list.remove` on the partly filtered list deletes the very tile being visited |
| Tilemap.ExtractStep | GAME/scripts/tilemap.py:47-51 | one pass of the off-grid loop grows the matches by the visited tile and keeps the list equal to kept-so-far plus unvisited |
| Tilemap.Neighbours | GAME/scripts/tilemap.py:123-128 | only the four orthogonal shifts, and only where the shifted cell holds a tile of the same type |
| Tilemap.AutotiledTile | GAME/scripts/tilemap.py:129-131 | type and position are kept; a tile that changes is of an autotiled type and takes a variant from the table |
| Tilemap.AutotiledGrid | GAME/scripts/tilemap.py:120-131 | the grid keeps its cells, types and positions: only variants can change |
| Tilemap.NeighboursOfLayout | GAME/scripts/tilemap.py:123-128 | the neighbour set depends only on cells, types and positions, never on variants |
| Tilemap.AutotileTable | GAME/scripts/tilemap.py:9-19 | the table has 9 distinct keys made of the 4 orthogonal shifts, and maps them one-to-one onto variants 0..8 |
| Tilemap.AutotileChangesVariantsOnly | GAME/scripts/tilemap.py:120-131 | autotiling keeps every key, type and position; a tile changes only if its type is autotiled and its neighbour set is a key, and then to that key's variant in 0..8 |
| Tilemap.AutotileIsolatedKeepsVariant | GAME/scripts/tilemap.py:129-131 | a tile with no same-type neighbour keeps its variant |
| Tilemap.AutotileIdempotent | GAME/scripts/tilemap.py:120-131 | a second autotile pass changes nothing |
| Tilemap.Tilemap.constructor | GAME/scripts/tilemap.py:27-31 | an empty grid and off-grid list with the given tile size |
| Tilemap.Tilemap.TilesAround | GAME/scripts/tilemap.py:69-94 | the loop builds the border ring and returns the stored tiles in visiting order |
| Tilemap.Tilemap.PhysicsRectsAround | GAME/scripts/tilemap.py:110-118 | the loop returns the physics-tile squares of `tiles_around`, in the same order |
| Tilemap.Tilemap.Extract | GAME/scripts/tilemap.py:42-67 | off-grid matches come first in list order with positions unchanged, then grid matches with positions in pixels; with `keep` both stores are unchanged; otherwise exactly the matches leave both stores and the remaining off-grid tiles keep their order |
| Tilemap.Tilemap.ExtractOffgrid | GAME/scripts/tilemap.py:46-51 | the off-grid walk over a copy: matches in order, and removal of exactly the matching tiles |
| Tilemap.Tilemap.ExtractGrid | GAME/scripts/tilemap.py:53-65 | the grid walk visits each matching cell once, copies its tile in pixels, and deletes the matches after the walk |
| Tilemap.Tilemap.CollectMatches | GAME/scripts/tilemap.py:53-62 | the grid walk meets each matching cell once, returns pixel copies in walk order, and lists those cells for deletion unless `keep` |
| Tilemap.Tilemap.DeleteCells | GAME/scripts/tilemap.py:64-65 | the deletion loop removes exactly the listed cells and leaves the other tiles untouched |
| Tilemap.Tilemap.Autotile | GAME/scripts/tilemap.py:120-131 | the in-place pass over the grid gives the grid of the autotile rule applied to the original grid |
| Tilemap.Tilemap.Place | GAME/editor.py:84 | placing on the grid stores the tile under its own cell, replacing any tile there, and keeps the key invariant |
| Tilemap.Tilemap.Remove | GAME/editor.py:86-88 | deleting removes exactly that cell, if present |
| Tilemap.Tilemap.PlaceOffgrid | GAME/editor.py:107 | an off-grid placement appends to the decoration list |
| Entities.EntityRect | GAME/scripts/entities.py:30 | the rectangle has the entity's size, and its corner is within one pixel of the position, truncated toward zero |
| Entities.Clamp | GAME/scripts/entities.py:65-70 | the leading edge ends on the tile's facing edge; size and the other coordinate are kept; with no motion on the axis the rectangle is unchanged |
| Entities.Visit | GAME/scripts/entities.py:64-71 | on overlap the rectangle is clamped against the tile and the flag of the direction of motion is set; without overlap nothing changes |
| Entities.Sweep | GAME/scripts/entities.py:63-86 | a pass keeps the rectangle's size and never clears a flag once set |
| Entities.Resolve | GAME/scripts/entities.py:48-86 | X against candidates from the position before the move (line 51), then Y against fresh candidates; each coordinate ends at the free target or, after an overlap, on a whole pixel |
| Entities.SweepShape | GAME/scripts/entities.py:63-86 | a pass marks right/down only when moving positively and left/up only when moving negatively; it keeps the size and the other coordinate |
| Entities.SweepFree | GAME/scripts/entities.py:63-86 | with no overlapping candidate, a pass changes nothing |
| Entities.SweepSnoc | GAME/scripts/entities.py:63-86 | the candidates are visited in order, each against the rectangle as already clamped |
| Entities.SweepLastWins | GAME/scripts/entities.py:63-86 | a later overlapping candidate puts the entity's leading edge on its facing edge; a later non-overlapping one changes nothing |
| Entities.SweepEndsAgainst | GAME/scripts/entities.py:63-86 | a pass that overlapped anything ends against one of its candidates |
| Entities.PassContact | GAME/scripts/entities.py:63-86 | a marked direction implies motion that way and an edge resting on a candidate |
| Entities.ResolveMask | GAME/scripts/entities.py:48-86 | the mask never holds both left and right or both up and down, and each flag requires displacement in its direction |
| Entities.ResolveFree | GAME/scripts/entities.py:49-86 | with no overlap on either pass the position advances by the whole frame displacement and the mask is clear |
| Entities.ResolveContact | GAME/scripts/entities.py:63-86 | right: right edge on a candidate's left edge; left: left edge on a right edge; down: bottom on a top; up: top on a bottom |
| Entities.Gravity | GAME/scripts/entities.py:96-99 | vertical speed grows by 0.1 capped at 5, and is 0 after a vertical contact |
| Entities.FallingSpeed | GAME/scripts/entities.py:96 | in free fall the speed after k updates is min(5, vy + 0.1k) |
| Entities.Facing | GAME/scripts/entities.py:89-92 | moving right faces right, moving left faces left, no horizontal intent keeps the facing |
| Entities.DashTick | GAME/scripts/entities.py:223-226 | the dash timer moves one step toward 0 without crossing it |
| Entities.DashCountdown | GAME/scripts/entities.py:223-226 | after k updates the timer is max(0, d-k) or min(0, d+k); a 60 dash lasts exactly 60 updates |
| Entities.DashVelocity | GAME/scripts/entities.py:227-230 | horizontal speed is ±8 while more than 51 updates remain, ±0.8 at 51, and untouched at 50 or fewer |
| Entities.Friction | GAME/scripts/entities.py:236-239 | horizontal speed moves 0.1 toward zero, never past it and never changing sign |
| Entities.PlayerAction | GAME/scripts/entities.py:197-214 | wall slide first, then in the air (air time over 4), then running on horizontal intent, else idle |
| Entities.PhysicsEntity.constructor | GAME/scripts/entities.py:10-23 | a new entity is at rest with a clear mask, facing right |
| Entities.PhysicsEntity.CurrentRect | GAME/scripts/entities.py:25-30 | the entity's rectangle has its size and lies within one pixel of its position |
| Entities.PhysicsEntity.PassX | GAME/scripts/entities.py:53-71 | the X loop moves, clamps against each overlapping candidate in turn, and writes the clamped x back |
| Entities.PhysicsEntity.Move | GAME/scripts/entities.py:48-86 | resetting the mask and running the X loop and then the Y loop gives exactly the position and mask of `Resolve` |
| Entities.PhysicsEntity.PassY | GAME/scripts/entities.py:74-86 | the Y loop moves, queries candidates afresh, clamps, and writes the clamped y back |
| Entities.PhysicsEntity.Update | GAME/scripts/entities.py:38-99 | the new position and mask are those of the resolver step; facing and last movement follow the intent; vertical speed gets gravity and horizontal speed is unchanged |
| Entities.Player.constructor | GAME/scripts/entities.py:175-181 | a new player is at rest, facing right, with a clear mask and zero last movement, and has one jump, no air time, no dash and no wall slide |
| Entities.Player.Update | GAME/scripts/entities.py:183-239 | after the physics step: landing resets air time to 0 and jumps to 1; wall slide iff side contact and air time over 4, then vy <= 0.5 and facing away from the wall; the dash timer ticks; horizontal speed gets dash speed and friction; jumps stay in 0..1 and the timer in -60..60 |
| Entities.Player.Land | GAME/scripts/entities.py:186-195 | air time grows by one unless on the ground, where it is 0 and jumps is 1 |
| Entities.Player.SlideOnWall | GAME/scripts/entities.py:197-214 | wall slide caps the fall at 0.5 and faces away from the wall; the action follows the priority rule |
| Entities.Player.DashStep | GAME/scripts/entities.py:223-239 | the dash timer ticks and horizontal speed becomes friction of the dash speed |
| Entities.Player.Jump | GAME/scripts/entities.py:241-259 | when wall sliding: never a ground jump, and a push off (±3.5, -2.5, air time 5, jumps max(0, jumps-1)) only when the last intent pointed into the wall; otherwise a banked jump gives vy = -3.5 and air time 5; jumps never goes negative |
| Entities.Player.Dash | GAME/scripts/entities.py:265-270 | only from a zero timer: 60 facing right, -60 facing left |
| Utils.Tick | GAME/scripts/utils.py:33-39 | looping: the next frame, wrapping to 0 after the last, and `done` untouched; one-shot: one frame on, stopping at the last, with `done` set there; `done` is never cleared |
| Utils.LoopingRun | GAME/scripts/utils.py:34-35 | after k looping updates the frame is (frame + k) mod N and `done` is unchanged |
| Utils.LoopingPeriod | GAME/scripts/utils.py:35 | a looping animation returns to its frame after exactly N updates |
| Utils.OneShotRun | GAME/scripts/utils.py:36-39 | after k one-shot updates the frame is min(frame + k, N-1), and `done` holds from the first update that reaches N-1 |
| Utils.ImageIndex | GAME/scripts/utils.py:44 | `int(frame / img_duration)`: the image whose time slot contains the frame |
| Utils.ImageIndexInRange | GAME/scripts/utils.py:44 | every frame below N selects an existing image |
| Utils.Animation.constructor | GAME/scripts/utils.py:22-28 | the settings are stored, frame 0, not done |
| Utils.Animation.Copy | GAME/scripts/utils.py:30-31 | a fresh animation with the same images, duration, loop and player settings, at frame 0 and not done |
| Utils.Animation.Update | GAME/scripts/utils.py:33-39 | the counter takes one Tick, and the frame stays in [0, N) |
| Utils.Animation.Img | GAME/scripts/utils.py:41-44 | the image shown is one of the images, the one whose time slot holds the frame |

## Left out

- `Tilemap.save` and `Tilemap.load` are file and JSON I/O. They are not modelled.
- All `render` methods are left out. This includes the tile map's visible-cell range and the player's dash-time hiding; they only draw.
- The game loop is not part of this model: event polling, camera smoothing, level loading, particles, sparks, projectiles, clouds and screenshake.
- `Enemy.update` is not part of this model. It is driven by `random` and reads the game's player.
- The `Matt` and `Potts` entities are not part of this model.
- The particle bursts of `Player.update` are left out, as are the side effects on the game's `dead` and `screenshake` counters after 120 updates in the air.
- `set_action` is modelled as the `action` field. Fetching and copying the animation asset for it is left out.
- The call to `self.animation.update()` at the end of `PhysicsEntity.update` is left out, because the animation comes from the game's asset table. The animation counter itself is modelled in `Utils.Animation`.
- The unused `tiles_around` call and the unused `top_left_x`/`top_left_y` locals in `PhysicsEntity.update` are left out. They have no effect.
- `load_image` and `load_images` are left out. They read image files.
- Positions and velocities are exact reals. Float rounding is not modelled, so the dash cut to one tenth of 8 gives exactly 0.8.
- Tilemap.Tilemap.Extract: the grid is walked in an unspecified order, returned as the ghost `order`. Python's dictionary insertion order is not modelled, so the order of the grid matches is proved only up to that walk.
- Tilemap.Tilemap.PlaceOffgrid: positions of off-grid tiles are whole pixels. The editor can store fractional mouse positions.
- Utils.Animation.constructor: requires a non-empty image list and a positive duration. With an empty list or a zero duration the source fails in `update` (division by zero) or `img` (index error). A negative duration does not fail there either; the model excludes it. Every construction in `GAME/game.py` (lines 46-63) passes a loaded image list and a positive duration of 4, 5, 6 or 20.
- Tilemap.Tilemap.constructor: requires a positive tile size. The source divides by the tile size in every query.
- Entities.Player.Jump: returns false when no wall jump happens, where the source returns `None`.
- The editor's off-grid deletion tests the mouse against image sizes, so it is left out.
