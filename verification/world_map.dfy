/** The world map: a fixed-size matrix of elements, the one-step move of an
    element in a named direction, edge classification and text rendering. */
module Grid {
  import opened Elements

  // Direction names.
  const UP := "U"
  const DOWN := "D"
  const LEFT := "L"
  const RIGHT := "R"

  // Names of the two horizontal borders; the vertical ones reuse LEFT and RIGHT.
  const TOP := "T"
  const BOTTOM := "B"

  /** The errors the map reports, one tag per `fmt.Errorf` site. */
  datatype Error =
    | NoPosition(name: string)
    | OutOfBounds(at: Coord)
    | UnknownDirection(direction: string)
    | InvalidMove(to: Coord)

  /** A Go `error` result: nil or an error. */
  datatype Outcome = Pass | Fail(error: Error)

  /** A Go `(value, error)` pair where exactly one is meaningful. */
  datatype Result<T> = Ok(value: T) | Err(error: Error)

  datatype Option<T> = None | Some(value: T)

  /** The one-step destination of `p` in `direction`, in uint32 arithmetic;
      `None` for a name that is not one of the four directions. */
  function Step(p: Coord, direction: string): (r: Option<Coord>)
    ensures r.Some? <==> direction in {UP, DOWN, LEFT, RIGHT}
    ensures r.Some? ==> (r.value.X == p.X) != (r.value.Y == p.Y)
  {
    if direction == UP then Some(Coord(p.X, Inc(p.Y)))
    else if direction == DOWN then Some(Coord(p.X, Dec(p.Y)))
    else if direction == LEFT then Some(Coord(Dec(p.X), p.Y))
    else if direction == RIGHT then Some(Coord(Inc(p.X), p.Y))
    else None
  }

  /** Stepping in a direction and then in the opposite one returns to the
      start, wrap-around included. */
  lemma StepThenBack(p: Coord)
    ensures Step(Step(p, UP).value, DOWN) == Some(p)
    ensures Step(Step(p, DOWN).value, UP) == Some(p)
    ensures Step(Step(p, LEFT).value, RIGHT) == Some(p)
    ensures Step(Step(p, RIGHT).value, LEFT) == Some(p)
  {
  }

  /** `g` with the cell at `row`, `col` replaced by `el`. */
  function Placed(g: seq<seq<Element>>, row: int, col: int, el: Element): (r: seq<seq<Element>>)
    requires 0 <= row < |g| && 0 <= col < |g[row]|
    ensures |r| == |g| && forall i :: 0 <= i < |g| ==> |r[i]| == |g[i]|
    ensures r[row][col] == el
    ensures forall i, j :: 0 <= i < |g| && 0 <= j < |g[i]| && (i != row || j != col) ==> r[i][j] == g[i][j]
  {
    g[row := g[row][col := el]]
  }

  /** Two grids with the same shape and the same cells are equal. */
  lemma SameGrid(a: seq<seq<Element>>, b: seq<seq<Element>>)
    requires |a| == |b| && forall i :: 0 <= i < |a| ==> |a[i]| == |b[i]|
    requires forall i, j :: 0 <= i < |a| && 0 <= j < |a[i]| ==> a[i][j] == b[i][j]
    ensures a == b
  {
    forall i | 0 <= i < |a|
      ensures a[i] == b[i]
    {
      assert forall j :: 0 <= j < |a[i]| ==> a[i][j] == b[i][j];
    }
  }

  // ----- Rendering -----

  /** The cells of one row, each drawn as its representation. */
  function RowText(row: seq<Element>): string
  {
    if row == [] then "" else RowText(row[..|row| - 1]) + row[|row| - 1].String()
  }

  /** The rows in order, each drawn and followed by a newline. */
  function Render(g: seq<seq<Element>>): string
  {
    if g == [] then "" else Render(g[..|g| - 1]) + RowText(g[|g| - 1]) + "\n"
  }

  /** `n` dots. */
  function Dots(n: nat): string
  {
    if n == 0 then "" else Dots(n - 1) + "."
  }

  /** `h` lines of `w` dots each. */
  function Lines(h: nat, w: nat): string
  {
    if h == 0 then "" else Lines(h - 1, w) + Dots(w) + "\n"
  }

  /** Every row has `w` cells, each drawn as one character. */
  ghost predicate OneCharCells(g: seq<seq<Element>>, w: nat)
  {
    forall i :: 0 <= i < |g| ==> |g[i]| == w && forall j :: 0 <= j < w ==> |g[i][j].Representation| == 1
  }

  /** A row of one-character cells draws as one character per cell, in order. */
  lemma {:induction false} RowTextAt(row: seq<Element>)
    requires forall j :: 0 <= j < |row| ==> |row[j].Representation| == 1
    ensures |RowText(row)| == |row|
    ensures forall j :: 0 <= j < |row| ==> RowText(row)[j] == row[j].Representation[0]
  {
    if row != [] {
      RowTextAt(row[..|row| - 1]);
    }
  }

  /** With `w` one-character cells per row, the output has `w + 1`
      characters per row. */
  lemma {:induction false} RenderLength(g: seq<seq<Element>>, w: nat)
    requires OneCharCells(g, w)
    ensures |Render(g)| == |g| * (w + 1)
  {
    if g != [] {
      var n := |g| - 1;
      RenderLength(g[..n], w);
      RowTextAt(g[n]);
      assert |g| * (w + 1) == n * (w + 1) + w + 1;
    }
  }

  /** Row-major layout: with `w` one-character cells per row, line `k` of the
      output (characters `k * (w + 1)` up to `(k + 1) * (w + 1)`) is row `k`
      drawn left to right followed by a newline. */
  lemma RenderLine(g: seq<seq<Element>>, w: nat, k: nat)
    requires OneCharCells(g, w)
    requires k < |g|
    ensures |Render(g)| == |g| * (w + 1)
    ensures Render(g)[k * (w + 1)..(k + 1) * (w + 1)] == RowText(g[k]) + "\n"
  {
    var before, after := g[..k], g[k + 1..];
    var line := RowText(g[k]) + "\n";
    assert g == before + [g[k]] + after;
    RenderAppend(before + [g[k]], after);
    RenderAppend(before, [g[k]]);
    assert Render([g[k]]) == line by {
      assert [g[k]][..0] == [];
    }
    RenderLength(g, w);
    RenderLength(before, w);
    RowTextAt(g[k]);
    assert (k + 1) * (w + 1) == k * (w + 1) + |line|;
    SliceOfMiddle(Render(before), line, Render(after));
  }

  /** Drawing two grids one after the other is drawing their concatenation. */
  lemma {:induction false} RenderAppend(a: seq<seq<Element>>, b: seq<seq<Element>>)
    ensures Render(a + b) == Render(a) + Render(b)
  {
    if b == [] {
      assert a + b == a;
    } else {
      var n := |b| - 1;
      RenderAppend(a, b[..n]);
      assert (a + b)[..|a + b| - 1] == a + b[..n];
    }
  }

  /** The middle part of a three-way concatenation, as a slice. */
  lemma SliceOfMiddle(a: string, b: string, c: string)
    ensures (a + b + c)[|a|..|a| + |b|] == b
  {
  }

  /** A grid whose rows all have `w` cells drawn as "." renders as `|g|`
      lines of `w` dots. */
  lemma {:induction false} RenderBackground(g: seq<seq<Element>>, w: nat)
    requires forall i :: 0 <= i < |g| ==> |g[i]| == w
    requires forall i, j :: 0 <= i < |g| && 0 <= j < |g[i]| ==> g[i][j].Representation == "."
    ensures Render(g) == Lines(|g|, w)
  {
    if g != [] {
      var n := |g| - 1;
      RenderBackground(g[..n], w);
      RowTextBackground(g[n]);
    }
  }

  /** A row of cells drawn as "." renders as that many dots. */
  lemma {:induction false} RowTextBackground(row: seq<Element>)
    requires forall j :: 0 <= j < |row| ==> row[j].Representation == "."
    ensures RowText(row) == Dots(|row|)
  {
    if row != [] {
      RowTextBackground(row[..|row| - 1]);
    }
  }

  // ----- The map -----

  class WorldMap {
    /** Width (`X`) and height (`Y`). */
    const Size: Coord
    /** `Size.Y` rows of `Size.X` cells; `matrix[i, j]` is row `i`, column `j`. */
    const matrix: array2<Element>

    /** The matrix has the dimensions `Size` gives. */
    predicate Shaped()
    {
      matrix.Length0 == Size.Y as int && matrix.Length1 == Size.X as int
    }

    /** The map invariant: shaped, and every cell has a position (construction
        gives each one, and `Put` refuses an element without one). */
    ghost predicate Valid()
      reads this, matrix
    {
      Shaped() &&
      forall i, j :: 0 <= i < matrix.Length0 && 0 <= j < matrix.Length1 ==> matrix[i, j].Position != null
    }

    /** The matrix, row by row. */
    ghost function Cells(): (g: seq<seq<Element>>)
      reads this, matrix
      ensures |g| == matrix.Length0
      ensures forall i :: 0 <= i < |g| ==> |g[i]| == matrix.Length1
      ensures forall i, j :: 0 <= i < matrix.Length0 && 0 <= j < matrix.Length1 ==> g[i][j] == matrix[i, j]
    {
      seq(matrix.Length0, i requires 0 <= i < matrix.Length0 reads matrix =>
        seq(matrix.Length1, j requires 0 <= j < matrix.Length1 reads matrix => matrix[i, j]))
    }

    /** A `width` by `height` map whose every cell is a "background" element
        drawn as "." holding its own fresh point at its column and row.
        Zero dimensions are accepted. */
    constructor NewWorldMap(width: u32, height: u32)
      ensures Valid() && Size == Coord(width, height)
      ensures fresh(matrix)
      ensures forall i, j :: 0 <= i < height as int && 0 <= j < width as int ==>
        matrix[i, j].Name == "background" && matrix[i, j].Representation == "." &&
        matrix[i, j].Position != null && fresh(matrix[i, j].Position) &&
        matrix[i, j].Position.Value() == Coord(j as u32, i as u32)
      ensures Render(Cells()) == Lines(height as int, width as int)
    {
      var m := new Element[height, width];
      var i := 0;
      while i < height as int
        invariant 0 <= i <= height as int
        invariant forall r, c :: 0 <= r < i && 0 <= c < width as int ==>
          m[r, c].Name == "background" && m[r, c].Representation == "." &&
          m[r, c].Position != null && fresh(m[r, c].Position) &&
          m[r, c].Position.Value() == Coord(c as u32, r as u32)
      {
        var j := 0;
        while j < width as int
          invariant 0 <= j <= width as int
          invariant forall r, c :: (0 <= r < i && 0 <= c < width as int) || (r == i && 0 <= c < j) ==>
            m[r, c].Name == "background" && m[r, c].Representation == "." &&
            m[r, c].Position != null && fresh(m[r, c].Position) &&
            m[r, c].Position.Value() == Coord(c as u32, r as u32)
        {
          var e := NewElement("background", ".", Coord(j as u32, i as u32));
          m[i, j] := e;
          j := j + 1;
        }
        i := i + 1;
      }
      Size := Coord(width, height);
      matrix := m;
      new;
      RenderBackground(Cells(), width as int);
    }

    /** Whether `pos` lies on the map; the valid coordinates are exactly the
        matrix indices. */
    predicate IsValidCoord(pos: Coord)
      ensures Shaped() ==> (IsValidCoord(pos) <==> pos.Y as int < matrix.Length0 && pos.X as int < matrix.Length1)
    {
      pos.X < Size.X && pos.Y < Size.Y
    }

    /** Whether a step from `from` in `direction` is a known direction that
        stays on the map. */
    predicate CanStep(from: Coord, direction: string)
    {
      var to := Step(from, direction);
      to.Some? && IsValidCoord(to.value)
    }

    /** `Put` indexes both the row and the column by `Y`: for a position on
        the map, row `Y` must also be a column index, or the source's slice
        index is out of range. Always true when the map is at least as wide
        as it is high. */
    predicate DiagonalInRange(c: Coord)
      ensures Size.Y <= Size.X ==> DiagonalInRange(c)
    {
      IsValidCoord(c) ==> c.Y < Size.X
    }

    /** A copy of the element at column `x`, row `y`; it has a position. */
    function GetElementCopyAt(x: u32, y: u32): (e: Element)
      requires Valid()
      requires IsValidCoord(Coord(x, y))
      reads this, matrix
      ensures e.Position != null
    {
      matrix[y, x]
    }

    /** Stores `el` at row `Y`, column `Y` of its position (the source indexes
        the row by `Y` twice). Fails, changing nothing, when the position is nil
        or off the map. */
    method Put(el: Element) returns (err: Outcome)
      requires Valid()
      requires el.Position != null ==> DiagonalInRange(el.Position.Value())
      modifies matrix
      ensures Valid()
      ensures el.Position == null ==> err == Fail(NoPosition(el.Name))
      ensures el.Position != null && !IsValidCoord(el.Position.Value()) ==>
        err == Fail(OutOfBounds(el.Position.Value()))
      ensures err.Pass? <==> el.Position != null && IsValidCoord(el.Position.Value())
      ensures Cells() == if err.Pass? then Placed(old(Cells()), el.Position.Y as int, el.Position.Y as int, el)
                         else old(Cells())
    {
      if !el.HasPosition() {
        return Fail(NoPosition(el.Name));
      }
      if !IsValidCoord(el.Position.Value()) {
        return Fail(OutOfBounds(el.Position.Value()));
      }
      ghost var before := Cells();
      matrix[el.Position.Y, el.Position.Y] := el;
      SameGrid(Cells(), Placed(before, el.Position.Y as int, el.Position.Y as int, el));
      err := Pass;
    }

    /** Moves `element` one step in `direction`. On success the element's own
        point now holds the destination and is returned; the copy of the
        cell at the old position is put back at its point's row and column
        `Y` (which is the destination if that cell shares the element's
        point), and then the element is put at the destination's row and
        column `Y`; both puts' errors are ignored. A nil position, an unknown
        direction or a destination off the map fails and changes nothing. */
    method Move(element: Element, direction: string) returns (r: Result<Point>)
      requires Valid()
      requires element.Position != null ==> IsValidCoord(element.Position.Value())
      requires element.Position != null && CanStep(element.Position.Value(), direction) ==>
        var from := element.Position.Value();
        var to := Step(from, direction).value;
        var original := matrix[from.Y as int, from.X as int];
        && DiagonalInRange(to)
        && DiagonalInRange(if original.Position == element.Position then to else original.Position.Value())
      modifies matrix, element.Position
      ensures Valid()
      ensures element.Position == null ==> r == Err(NoPosition(element.Name))
      ensures element.Position != null && Step(old(element.Position.Value()), direction).None? ==>
        r == Err(UnknownDirection(direction))
      ensures element.Position != null && Step(old(element.Position.Value()), direction).Some? &&
              !CanStep(old(element.Position.Value()), direction) ==>
        r == Err(InvalidMove(Step(old(element.Position.Value()), direction).value))
      ensures r.Err? <==> element.Position == null || !CanStep(old(element.Position.Value()), direction)
      ensures r.Err? ==>
        && Cells() == old(Cells())
        && (element.Position != null ==> element.Position.Value() == old(element.Position.Value()))
      ensures r.Ok? ==>
        var from := old(element.Position.Value());
        var to := Step(from, direction).value;
        var original := old(matrix[from.Y as int, from.X as int]);
        var back := original.Position.Value();
        && r.value == element.Position
        && element.Position.Value() == to
        && Cells() == Placed(if IsValidCoord(back) then Placed(old(Cells()), back.Y as int, back.Y as int, original)
                             else old(Cells()),
                             to.Y as int, to.Y as int, element)
    {
      if !element.HasPosition() {
        return Err(NoPosition(element.Name));
      }
      var originalElement := GetElementCopyAt(element.Position.X, element.Position.Y);
      var np := Step(element.Position.Value(), direction);
      if np.None? {
        return Err(UnknownDirection(direction));
      }
      if !IsValidCoord(np.value) {
        return Err(InvalidMove(np.value));
      }
      var movedElement := element.SetPosition(np.value.X, np.value.Y);
      var _ := Put(originalElement);
      var _ := Put(movedElement);
      return Ok(movedElement.Position);
    }

    /** Classifies `p` against the borders in the fixed order left (X = 0),
        right (X = Size.X - 1), top (Y = Size.Y - 1), bottom (Y = 0); the
        first match wins. `Size - 1` is uint32 arithmetic. */
    function IsMapEdge(p: Point): (r: (bool, string))
      reads p
      ensures r.0 <==> r.1 != ""
      ensures r.1 in {LEFT, RIGHT, TOP, BOTTOM, ""}
    {
      var topY := Dec(Size.Y);
      var bottomY: u32 := 0;
      var leftX: u32 := 0;
      var rightX := Dec(Size.X);
      if p.X == leftX then (true, LEFT)
      else if p.X == rightX then (true, RIGHT)
      else if p.Y == topY then (true, TOP)
      else if p.Y == bottomY then (true, BOTTOM)
      else (false, "")
    }

    /** The corners: (0, 0) is LEFT; (Size.X - 1, 0) is RIGHT once the map is
        more than one column wide; (Size.X - 1, Size.Y - 1) too. */
    lemma CornerPriority(p: Point)
      ensures p.Value() == Coord(0, 0) ==> IsMapEdge(p) == (true, LEFT)
      ensures Size.X > 1 && p.Value() == Coord(Size.X - 1, 0) ==> IsMapEdge(p) == (true, RIGHT)
      ensures Size.X > 1 && Size.Y > 0 && p.Value() == Coord(Size.X - 1, Size.Y - 1) ==> IsMapEdge(p) == (true, RIGHT)
    {
    }

    /** A cell on the map is not an edge exactly when it is strictly inside
        all four borders. */
    lemma InteriorIsNotEdge(p: Point)
      requires IsValidCoord(p.Value())
      ensures IsMapEdge(p) == (false, "") <==>
        0 < p.X as int < Size.X as int - 1 && 0 < p.Y as int < Size.Y as int - 1
    {
    }

    /** A cell on the map classified LEFT, RIGHT, TOP or BOTTOM cannot step
        LEFT, RIGHT, UP or DOWN respectively. */
    lemma EdgeBlocksStep(p: Point)
      requires IsValidCoord(p.Value())
      ensures IsMapEdge(p).1 == LEFT ==> !CanStep(p.Value(), LEFT)
      ensures IsMapEdge(p).1 == RIGHT ==> !CanStep(p.Value(), RIGHT)
      ensures IsMapEdge(p).1 == TOP ==> !CanStep(p.Value(), UP)
      ensures IsMapEdge(p).1 == BOTTOM ==> !CanStep(p.Value(), DOWN)
    {
    }

    /** A cell on the map is an edge exactly when some direction leads off
        the map. */
    lemma EdgeIffBlocked(p: Point)
      requires IsValidCoord(p.Value())
      ensures IsMapEdge(p).0 <==>
        !CanStep(p.Value(), UP) || !CanStep(p.Value(), DOWN) ||
        !CanStep(p.Value(), LEFT) || !CanStep(p.Value(), RIGHT)
    {
    }

    /** The map drawn row by row in matrix order, each row's cells by their
        representation and a newline after each row. It changes nothing, so
        two calls with no write between them agree. */
    method String() returns (s: string)
      ensures s == Render(Cells())
    {
      ghost var g := Cells();
      s := "";
      var i := 0;
      while i < matrix.Length0
        invariant 0 <= i <= matrix.Length0
        invariant s == Render(g[..i])
      {
        var j := 0;
        while j < matrix.Length1
          invariant 0 <= j <= matrix.Length1
          invariant s == Render(g[..i]) + RowText(g[i][..j])
        {
          s := s + matrix[i, j].String();
          assert g[i][..j + 1][..j] == g[i][..j];
          j := j + 1;
        }
        assert g[i][..j] == g[i];
        s := s + "\n";
        assert g[..i + 1][..i] == g[..i];
        i := i + 1;
      }
      assert g[..i] == g;
    }
  }
}
