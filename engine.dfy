/** The simulation engine: the `cells` grid, updated in place by
    setupCells (reseed) and updateCells / updateCell (one step). Each
    method is proved against the value-level rules of module Life. */
module Engine {

  import opened Life
  import Entropy

  /** Each reseeded cell consumes two 32-bit draws. */
  const SamplesPerCell: nat := 2 * Entropy.WordBits

  /** Row-major position of cell (x, y) in the order setupCells visits the
      grid: x outer, y inner. */
  lemma CellIndexBound(x: nat, y: nat, w: nat, h: nat)
    requires x < w && y < h
    ensures x * h + y < w * h
  {
    calc {
      x * h + y;
    <
      x * h + h;
    ==
      (x + 1) * h;
    <=
      w * h;
    }
  }

  /** The two draws of cell k lie within the samples given for n cells. */
  lemma DrawsFit(k: nat, n: nat, len: nat)
    requires k < n && len >= SamplesPerCell * n
    ensures Entropy.WordBits * (2 * k + 2) <= len
  {
    assert SamplesPerCell * n >= SamplesPerCell * (k + 1);
  }

  class Game {
    /** The grid size in cells: the display's width and height divided by
        the cell size. */
    const W: nat
    const H: nat
    var cells: array2<Cell>

    ghost predicate Shaped()
      reads this
    {
      W > 0 && H > 0 && cells.Length0 == W && cells.Length1 == H
    }

    /** The engine's invariant between operations: no cell has a pending
        `n_alive`. */
    ghost predicate Valid()
      reads this, cells
      ensures Valid() ==> Shaped() && Quiet(Board())
    {
      Shaped() && forall x, y :: 0 <= x < W && 0 <= y < H ==> !cells[x, y].nextAlive
    }

    /** The grid as a value. */
    ghost function Board(): (b: Board)
      reads this, cells
      requires Shaped()
      ensures IsGrid(b, W, H)
      ensures forall x, y :: 0 <= x < W && 0 <= y < H ==> b[x][y] == cells[x, y]
    {
      var a := cells;
      seq(W, x requires 0 <= x < W reads a => seq(H, y requires 0 <= y < H reads a => a[x, y]))
    }

    lemma ValidIsQuiet()
      requires Shaped()
      ensures Valid() <==> Quiet(Board())
    {
    }

    /** The row-major draw number of cell (x, y). */
    function CellIndex(x: nat, y: nat): (k: nat)
      requires x < W && y < H
      ensures k < W * H
    {
      CellIndexBound(x, y, W, H);
      x * H + y
    }

    /** The static grid: every cell starts zeroed. */
    constructor (w: nat, h: nat)
      requires w > 0 && h > 0
      ensures W == w && H == h && fresh(cells)
      ensures Valid() && AllDead(Board())
      ensures forall x, y :: 0 <= x < W && 0 <= y < H ==> cells[x, y] == ZeroCell
    {
      W, H := w, h;
      cells := new Cell[w, h]((x, y) => ZeroCell);
    }

    /** Cell number k of the reseed, made from its two draws. */
    function SeededCell(c: Cell, samples: seq<bool>, k: nat): (d: Cell)
      requires |samples| >= SamplesPerCell * (k + 1)
      ensures d.nextAlive == c.nextAlive
    {
      Reseeded(c, Entropy.Draw(samples, 2 * k), Entropy.Draw(samples, 2 * k + 1))
    }

    /** The `switch (val % 3)` of setupCells (golcol.cpp:111-131): colour
        cell (x, y) red, green or blue; the white default is never taken. */
    method PaintCell(x: nat, y: nat, val: nat)
      requires Shaped() && x < W && y < H
      modifies cells
      ensures Shaped()
      ensures cells[x, y] == old(cells[x, y]).(colour := SwitchColour(val % 3))
      ensures cells[x, y].colour != White
      ensures forall i, j :: 0 <= i < W && 0 <= j < H && (i != x || j != y) ==> cells[i, j] == old(cells[i, j])
    {
      if val % 3 == 0 {
        cells[x, y] := cells[x, y].(colour := Red);
      } else if val % 3 == 1 {
        cells[x, y] := cells[x, y].(colour := Green);
      } else if val % 3 == 2 {
        cells[x, y] := cells[x, y].(colour := Blue);
      } else {
        // The default branch, which would paint the cell White: val % 3
        // is always 0, 1 or 2.
        assert false;
      }
    }

    /** The body of setupCells' loops (golcol.cpp:109-135) for cell (x, y):
        the first ROrand(32) picks the colour, the second the liveness. */
    method ReseedCell(x: nat, y: nat, samples: seq<bool>)
      requires Shaped() && x < W && y < H
      requires |samples| >= SamplesPerCell * (W * H)
      modifies cells
      ensures Shaped()
      ensures cells[x, y] == SeededCell(old(cells[x, y]), samples, CellIndex(x, y))
      ensures forall i, j :: 0 <= i < W && 0 <= j < H && (i != x || j != y) ==> cells[i, j] == old(cells[i, j])
    {
      var k := CellIndex(x, y);
      DrawsFit(k, W * H, |samples|);
      var colourBits := Entropy.DrawBits(samples, 2 * k);
      var val := Entropy.ROrand(Entropy.WordBits, colourBits);
      assert colourBits[..Entropy.WordBits] == colourBits;
      PaintCell(x, y, val);
      var lifeBits := Entropy.DrawBits(samples, 2 * k + 1);
      val := Entropy.ROrand(Entropy.WordBits, lifeBits);
      assert lifeBits[..Entropy.WordBits] == lifeBits;
      cells[x, y] := cells[x, y].(alive := val % 2 != 0);
    }

    /** setupCells (golcol.cpp:105-138): reseed every cell, x outer and y
        inner, from the register's bits `samples` in reading order; cell
        (x, y) takes draws 2k and 2k + 1, where k is its position in that
        order. Pending marks are left alone, so the engine stays valid. */
    method SetupCells(samples: seq<bool>)
      requires Valid()
      requires |samples| >= SamplesPerCell * (W * H)
      modifies cells
      ensures Valid()
      ensures forall x, y :: 0 <= x < W && 0 <= y < H ==>
        cells[x, y] == SeededCell(old(cells[x, y]), samples, CellIndex(x, y))
      ensures forall x, y :: 0 <= x < W && 0 <= y < H ==>
        && (cells[x, y].colour == Red || cells[x, y].colour == Green || cells[x, y].colour == Blue)
        && (cells[x, y].alive <==> Entropy.Draw(samples, 2 * CellIndex(x, y) + 1) % 2 == 1)
    {
      ghost var b0 := Board();
      var x := 0;
      while x < W
        invariant 0 <= x <= W
        invariant Shaped()
        invariant forall i, j :: 0 <= i < W && 0 <= j < H ==>
          cells[i, j] == if i < x then SeededCell(b0[i][j], samples, CellIndex(i, j)) else b0[i][j]
      {
        var y := 0;
        while y < H
          invariant 0 <= y <= H
          invariant Shaped()
          invariant forall i, j :: 0 <= i < W && 0 <= j < H ==>
            cells[i, j] == if i < x || (i == x && j < y) then SeededCell(b0[i][j], samples, CellIndex(i, j)) else b0[i][j]
        {
          ReseedCell(x, y, samples);
          y := y + 1;
        }
        x := x + 1;
      }
    }

    /** One pass of updateCell's inner loop body (golcol.cpp:163-173), at
        step k of the offset loops: what offset (xOffset, yOffset) adds to
        the counters. Each early return is one of the source's
        `continue`s. */
    method NeighbourTerm(x: nat, y: nat, xOffset: int, yOffset: int, ghost k: nat) returns (term: Tally)
      requires Shaped() && x < W && y < H
      requires k < 9 && xOffset == OffsetX(k) && yOffset == OffsetY(k)
      ensures term == Term(Board(), x, y, k)
    {
      if xOffset == 0 && yOffset == 0 {
        return NoTally;
      }
      if x + xOffset < 0 || x + xOffset >= W || y + yOffset < 0 || y + yOffset >= H {
        return NoTally;
      }
      var curCell := cells[x + xOffset, y + yOffset];
      if !curCell.alive {
        return NoTally;
      }
      term := Tally(1, curCell.colour.r, curCell.colour.g, curCell.colour.b);
    }

    /** The neighbour scan of updateCell (golcol.cpp:158-175), with the
        colour accumulators starting at zero: offsets -1..1 in x, then in y,
        skipping the cell itself, positions off the grid and dead cells. The
        counters end as the tally of the Moore neighbourhood. */
    method ScanNeighbours(x: nat, y: nat) returns (t: Tally)
      requires Shaped() && x < W && y < H
      ensures t == Neighbourhood(Board(), x, y)
    {
      ghost var k := 0;
      var aliveNeighbours: nat := 0;
      var avgR: nat, avgG: nat, avgB: nat := 0, 0, 0;
      for xOffset := -1 to 2
        invariant k == 3 * (xOffset + 1)
        invariant Tally(aliveNeighbours, avgR, avgG, avgB) == ScanPrefix(Board(), x, y, k)
      {
        for yOffset := -1 to 2
          invariant k == 3 * (xOffset + 1) + (yOffset + 1)
          invariant Tally(aliveNeighbours, avgR, avgG, avgB) == ScanPrefix(Board(), x, y, k)
        {
          var term := NeighbourTerm(x, y, xOffset, yOffset, k);
          avgR := avgR + term.r;
          avgG := avgG + term.g;
          avgB := avgB + term.b;
          aliveNeighbours := aliveNeighbours + term.count;
          k := k + 1;
        }
      }
      t := Tally(aliveNeighbours, avgR, avgG, avgB);
    }

    /** updateCell(x, y) (golcol.cpp:157-192): scan the neighbours, then
        mark the cell for the next generation (and colour it on a birth).
        Only cell (x, y) changes, and it becomes what Computed says of the
        grid as it was on entry. */
    method UpdateCell(x: nat, y: nat)
      requires Shaped() && x < W && y < H
      modifies cells
      ensures Shaped()
      ensures cells[x, y] == Computed(old(Board()), x, y)
      ensures forall i, j :: 0 <= i < W && 0 <= j < H && (i != x || j != y) ==> cells[i, j] == old(cells[i, j])
    {
      var t := ScanNeighbours(x, y);
      var aliveNeighbours := t.count;
      if !cells[x, y].alive && aliveNeighbours == 3 {
        cells[x, y] := cells[x, y].(nextAlive := true,
                                    colour := Colour((t.r / 3) % 256, (t.g / 3) % 256, (t.b / 3) % 256));
      }
      if cells[x, y].alive {
        if aliveNeighbours == 2 || aliveNeighbours == 3 {
          cells[x, y] := cells[x, y].(nextAlive := true);
        }
      }
    }

    /** The compute pass of updateCells (golcol.cpp:142-146): updateCell on
        every cell in place, x outer and y inner. Every cell ends as
        computed against the grid as it was before the pass, although the
        later cells are computed against a grid the earlier ones changed. */
    method ComputePass()
      requires Shaped()
      modifies cells
      ensures Shaped()
      ensures forall i, j :: 0 <= i < W && 0 <= j < H ==> cells[i, j] == Computed(old(Board()), i, j)
    {
      ghost var b0 := Board();
      var x := 0;
      while x < W
        invariant 0 <= x <= W
        invariant Shaped()
        invariant forall i, j :: 0 <= i < W && 0 <= j < H ==>
          cells[i, j] == if i < x then Computed(b0, i, j) else b0[i][j]
      {
        var y := 0;
        while y < H
          invariant 0 <= y <= H
          invariant Shaped()
          invariant forall i, j :: 0 <= i < W && 0 <= j < H ==>
            cells[i, j] == if i < x || (i == x && j < y) then Computed(b0, i, j) else b0[i][j]
        {
          ghost var cur := Board();
          forall i, j | InBounds(cur, i, j)
            ensures cur[i][j].alive == b0[i][j].alive
            ensures cur[i][j].alive ==> cur[i][j].colour == b0[i][j].colour
          {
            ComputedFollowsRule(b0, i, j);
          }
          ComputedOfLiveView(cur, b0, x, y);
          UpdateCell(x, y);
          y := y + 1;
        }
        x := x + 1;
      }
    }

    /** The commit pass of updateCells (golcol.cpp:149-154): every cell's
        `n_alive` moves into `c_alive` and is cleared. */
    method CommitPass()
      requires Shaped()
      modifies cells
      ensures Valid()
      ensures forall i, j :: 0 <= i < W && 0 <= j < H ==> cells[i, j] == Commit(old(cells[i, j]))
    {
      var x := 0;
      while x < W
        invariant 0 <= x <= W
        invariant Shaped()
        invariant forall i, j :: 0 <= i < W && 0 <= j < H ==>
          cells[i, j] == if i < x then Commit(old(cells[i, j])) else old(cells[i, j])
      {
        var y := 0;
        while y < H
          invariant 0 <= y <= H
          invariant Shaped()
          invariant forall i, j :: 0 <= i < W && 0 <= j < H ==>
            cells[i, j] == if i < x || (i == x && j < y) then Commit(old(cells[i, j])) else old(cells[i, j])
        {
          cells[x, y] := cells[x, y].(alive := cells[x, y].nextAlive);
          cells[x, y] := cells[x, y].(nextAlive := false);
          y := y + 1;
        }
        x := x + 1;
      }
    }

    /** updateCells (golcol.cpp:140-155): the compute pass, then the commit
        pass. The result is the simultaneous step of the grid as it was on
        entry, whatever the order of the compute pass. */
    method UpdateCells()
      requires Valid()
      modifies cells
      ensures Valid()
      ensures Board() == Step(old(Board()))
    {
      ghost var b0 := Board();
      ComputePass();
      CommitPass();
      var b := Board();
      forall i | 0 <= i < W
        ensures b[i] == Step(b0)[i]
      {
        assert forall j | 0 <= j < H :: b[i][j] == Step(b0)[i][j];
      }
    }

    /** The step at the end of refreshDisplay (golcol.cpp:102), which the
        timer calls once per frame after drawing the live cells. */
    method RefreshDisplay()
      requires Valid()
      modifies cells
      ensures Valid()
      ensures Board() == Step(old(Board()))
    {
      UpdateCells();
    }
  }
}
