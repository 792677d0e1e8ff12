# Flatland world map, modelled in Dafny

This project models the grid of the flatland terminal simulation (Go package
`worldmap`, files `internal/world_map.go` and `internal/element.go`).

- A `WorldMap` is a fixed-size matrix of `Element` values. It has `Size.Y` rows of `Size.X` cells.
- An `Element` has a name, a one-string representation and a pointer to a mutable `Point`.
- Elements are moved one step at a time in four named directions: `"U"`, `"D"`, `"L"`, `"R"`.
- The map classifies border cells and draws itself as text.

Files:

- `element.dfy` (module `Elements`) holds these pieces:
  - `u32` is Go's `uint32`. `Inc` and `Dec` are its wrapping `++` and `--`.
  - `Coord` is the value of a `Point`, as Go copies it.
  - The class `Point` is the shared object that a `*Point` refers to.
  - The datatype `Element` holds a `Point?` reference. Copying an element shares its point, as in Go.
- `world_map.dfy` (module `Grid`) holds these pieces:
  - the class `WorldMap`, whose cells live in an `array2<Element>`;
  - the pure specifications `Step`, `Placed` and `Render`;
  - the lemmas about edges and rendering.

The model follows the code as written, including behaviour a reader might not expect:

- `Put` writes the element at row `Y`, column `Y`, as `world_map.go:56` indexes it. It does not write row `Y`, column `X`.
- `Move` is not a two-cell swap. It re-puts a copy of the cell at the old position, using that copy's own point. If that point is the moved element's point, it now holds the destination. Then it puts the moved element, so the last `Put` wins. Both `Put` results are ignored.
- For that reason the model makes no claim about content conservation or a right-then-left round trip of the grid.
- `"U"` increments `Y`, and the last row `Size.Y - 1` is classified `"T"` (top). `IsMapEdge` and `Step` keep this convention.
- Construction accepts zero dimensions.
- Reads do not return errors.
- Coordinates are uint32. So `DOWN` at `Y = 0` and `LEFT` at `X = 0` wrap to `2^32 - 1`, and `Size - 1` wraps when a dimension is 0.

Go panics become preconditions:

- indexing the matrix outside its bounds;
- `Put` indexing column `Y` when `Y >= Size.X`. This is `WorldMap.DiagonalInRange`;
- dereferencing a nil point in `SetPosition` or `IsMapEdge`.

## Model

| member | source | states |
|---|---|---|
| `Elements.Inc` | internal/world_map.go:72-79 | `x + 1` equals `(x + 1) mod 2^32`: the largest value wraps to 0 |
| `Elements.Dec` | internal/world_map.go:74-77 | `x - 1` equals `(x - 1) mod 2^32`: 0 wraps to `2^32 - 1` |
| `Elements.Point.constructor` | internal/element.go:14-20 | a new point holds exactly the given coordinates |
| `Elements.NewElement` | internal/element.go:14-20 | the name and representation are the arguments; the position is a non-nil, freshly allocated point whose coordinates equal the argument |
| `Elements.Element.SetPosition` | internal/element.go:22-26 | the shared point now holds `(x, y)`; the same element comes back; the reference, the name and the representation are unchanged; only that point is modified, so every copy sharing it sees the new coordinates |
| `Elements.Element.HasPosition` | internal/element.go:28-33 | true iff `Position` is not nil |
| `Elements.Element.String` | internal/element.go:35-37 | the result is exactly `Representation` |
| `Grid.Step` | internal/world_map.go:69-82 | the destination exists iff the direction is one of U, D, L, R; it differs from the start on exactly one axis |
| `Grid.StepThenBack` | internal/world_map.go:71-82 | a step U/D/L/R followed by the opposite step returns to the start, wrap-around included |
| `Grid.Placed` | internal/world_map.go:56 | the target cell holds the new element; every other cell and the grid's shape are unchanged |
| `Grid.WorldMap.NewWorldMap` | internal/world_map.go:30-42 | `Size = (width, height)`. The matrix has `height` rows of `width` cells. Cell (row i, column j) is a "background" element drawn as "." with its own fresh point at `(j, i)`. Every cell has a position. The map renders as `height` lines of `width` dots |
| `Grid.WorldMap.IsValidCoord` | internal/world_map.go:97-99 | a coordinate is valid exactly when it is an index of the matrix (`X < Size.X` and `Y < Size.Y`); as a function it has no side effect |
| `Grid.WorldMap.DiagonalInRange` | internal/world_map.go:52-56 | a valid coordinate's `Y` is a column index; it always holds when `Size.Y <= Size.X` |
| `Grid.WorldMap.GetElementCopyAt` | internal/world_map.go:123-125 | a cell read from a valid map always has a non-nil position |
| `Grid.WorldMap.Put` | internal/world_map.go:46-58 | nil position: `NoPosition` error. Position off the map: `OutOfBounds` error. In both cases the matrix is unchanged. Otherwise it succeeds; row `Y`, column `Y` holds the element, no other cell changes, and every cell still has a position |
| `Grid.WorldMap.Move` | internal/world_map.go:62-94 | Errors, in order: nil position (`NoPosition`), unknown direction (`UnknownDirection`), destination off the map, wrap at 0 included (`InvalidMove`). An error leaves the matrix and the element's point unchanged. On success the element's point holds the one-step destination and is itself returned. The grid is the old grid with the old cell re-put at its point's `(Y, Y)` when that is on the map, then the element put at the destination's `(Y, Y)` |
| `Grid.WorldMap.IsMapEdge` | internal/world_map.go:101-121 | the result is an edge iff its type is non-empty, and the type is one of L, R, T, B or "" |
| `Grid.WorldMap.CornerPriority` | internal/world_map.go:108-116 | left wins over the rest: (0, 0) is L. When `Size.X > 1`, (Size.X - 1, 0) and (Size.X - 1, Size.Y - 1) are R |
| `Grid.WorldMap.InteriorIsNotEdge` | internal/world_map.go:101-121 | a valid cell is classified `(false, "")` iff `0 < X < Size.X - 1` and `0 < Y < Size.Y - 1` |
| `Grid.WorldMap.EdgeBlocksStep` | internal/world_map.go:72-121 | a valid cell classified L, R, T or B cannot step L, R, U or D respectively, so `Move` in that direction fails |
| `Grid.WorldMap.EdgeIffBlocked` | internal/world_map.go:72-121 | a valid cell is an edge iff at least one of the four directions leads off the map |
| `Grid.WorldMap.String` | internal/world_map.go:138-149 | the text is the rows in matrix order, each row's representations followed by one newline. It changes nothing, so two calls with no write between them agree |
| `Grid.RowTextAt` | internal/world_map.go:141-144 | a row of one-character cells draws as one character per cell, in column order |
| `Grid.RenderLength` | internal/world_map.go:138-149 | with `w` one-character cells per row, the text has `rows * (w + 1)` characters |
| `Grid.RenderLine` | internal/world_map.go:138-149 | with `w` one-character cells per row, characters `k*(w+1)` up to `(k+1)*(w+1)` are row `k` followed by a newline (row-major layout) |
| `Grid.RenderAppend` | internal/world_map.go:141-146 | drawing a grid made of two parts gives the first part's text followed by the second's: rows are drawn independently, in order |
| `Grid.RenderBackground` | internal/world_map.go:138-149 | a grid of "." cells, `w` per row, draws as one line of `w` dots per row |
| `Grid.RowTextBackground` | internal/world_map.go:141-144 | a row of "." cells draws as that many dots |

## Left out

- `PrintMap` and `clearScreen` (internal/world_map.go:132-135, 152-154): terminal output and ANSI escape codes.
- `GetElementAt` (internal/world_map.go:127-129): it returns a pointer into the matrix. Dafny has no pointer to an array cell. `GetElementCopyAt` covers reads.
- All of `cmd/flatland-term/main.go`:
  - the driver loop, with its sleeps and printing;
  - the random re-draw of a direction, which uses `math/rand`;
  - the edge-to-excluded-direction mapping, which is glue. `EdgeBlocksStep` states what that mapping relies on;
  - the unused `NewWorldMap(int, int)` stub, which only panics.
- Error message text: each error is a datatype tag that carries the values the message prints.
- `Size` is a constant. The source never reassigns the exported field after construction.
- `matrix` is a two-dimensional array. The source's slice of slices always has rows of equal length, and the model does not capture a caller replacing a row slice.
