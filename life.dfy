/** The cells of the coloured Game of Life and the rules that act on them,
    as values. A board is the grid `cells[x][y]` (x the column, y the row);
    the functions here are the reference the in-place engine is proved
    against: the neighbourhood tally, the per-cell compute step of
    updateCell, the commit, the reseed of one cell and the simultaneous
    step of the whole board. */
module Life {

  /** An 8-bit colour channel (`uint8_t`). */
  type Byte = n: nat | n < 256

  datatype Colour = Colour(r: Byte, g: Byte, b: Byte)

  const Red := Colour(255, 0, 0)
  const Green := Colour(0, 255, 0)
  const Blue := Colour(0, 0, 255)
  const White := Colour(255, 255, 255)

  /** `struct Cell`: colour, `c_alive` (alive) and `n_alive` (nextAlive). */
  datatype Cell = Cell(colour: Colour, alive: bool, nextAlive: bool)

  /** The cell every static C object starts as: all fields zero. */
  const ZeroCell := Cell(Colour(0, 0, 0), false, false)

  /** `board[x][y]` is the cell in column x, row y. */
  type Board = seq<seq<Cell>>

  /** A w-by-h grid of cells. */
  predicate IsGrid(b: Board, w: nat, h: nat)
  {
    |b| == w && forall x :: 0 <= x < w ==> |b[x]| == h
  }

  predicate InBounds(b: Board, x: int, y: int)
  {
    0 <= x < |b| && 0 <= y < |b[x]|
  }

  /** No cell has a pending next state: what holds between steps. */
  ghost predicate Quiet(b: Board)
  {
    forall x, y :: InBounds(b, x, y) ==> !b[x][y].nextAlive
  }

  ghost predicate AllDead(b: Board)
  {
    forall x, y :: InBounds(b, x, y) ==> !b[x][y].alive
  }

  // ---------------------------------------------------------------------
  // Reseeding one cell (setupCells)

  /** The `switch (val % 3)` of setupCells, default branch included. */
  function SwitchColour(m: nat): (c: Colour)
    ensures m < 3 ==> c != White
    ensures c == Red <==> m == 0
    ensures c == Green <==> m == 1
    ensures c == Blue <==> m == 2
  {
    if m == 0 then Red
    else if m == 1 then Green
    else if m == 2 then Blue
    else White
  }

  /** What setupCells makes of one cell from its two 32-bit draws: the first
      picks the colour, the second the liveness; `n_alive` is not touched. */
  function Reseeded(c: Cell, colourDraw: nat, lifeDraw: nat): (d: Cell)
    ensures d.colour == Red || d.colour == Green || d.colour == Blue
    ensures d.colour == Red <==> colourDraw % 3 == 0
    ensures d.colour == Green <==> colourDraw % 3 == 1
    ensures d.colour == Blue <==> colourDraw % 3 == 2
    ensures d.alive <==> lifeDraw % 2 == 1
    ensures d.nextAlive == c.nextAlive
  {
    c.(colour := SwitchColour(colourDraw % 3), alive := lifeDraw % 2 != 0)
  }

  // ---------------------------------------------------------------------
  // The neighbourhood tally

  /** The running counters of updateCell: live neighbours and the sums of
      their red, green and blue channels. */
  datatype Tally = Tally(count: nat, r: nat, g: nat, b: nat)
  {
    function Plus(t: Tally): Tally
    {
      Tally(count + t.count, r + t.r, g + t.g, b + t.b)
    }

    /** Every channel sum is at most 255 per counted cell. */
    predicate Bounded()
    {
      r <= 255 * count && g <= 255 * count && b <= 255 * count
    }
  }

  const NoTally := Tally(0, 0, 0, 0)

  /** What position (i, j) adds to a tally: itself if it lies on the board
      and is alive, nothing otherwise. */
  function Contribution(b: Board, i: int, j: int): (t: Tally)
    ensures t.count <= 1 && t.Bounded()
  {
    if InBounds(b, i, j) && b[i][j].alive
    then Tally(1, b[i][j].colour.r, b[i][j].colour.g, b[i][j].colour.b)
    else NoTally
  }

  /** The offset updateCell's loops visit at step k (0 <= k < 9): x offset
      outer, y offset inner, each running -1, 0, 1. */
  function OffsetX(k: int): int
  {
    if k < 3 then -1 else if k < 6 then 0 else 1
  }

  function OffsetY(k: int): int
  {
    k - 3 * (OffsetX(k) + 1) - 1
  }

  /** Step 4 of the offset loops is the cell itself. */
  predicate IsCentre(k: int)
  {
    k == 4
  }

  /** What step k of the offset loops adds: nothing for the cell itself,
      otherwise the contribution of position (x, y) + offset. */
  function Term(b: Board, x: int, y: int, k: int): (t: Tally)
    ensures t.count <= 1 && t.Bounded()
    ensures IsCentre(k) || !InBounds(b, x + OffsetX(k), y + OffsetY(k)) ==> t == NoTally
  {
    if IsCentre(k) then NoTally else Contribution(b, x + OffsetX(k), y + OffsetY(k))
  }

  /** The counters after the first k steps of the offset loops. */
  function ScanPrefix(b: Board, x: int, y: int, k: nat): (t: Tally)
    requires k <= 9
    ensures t.count <= (if k > 4 then k - 1 else k) && t.Bounded()
  {
    if k == 0 then NoTally
    else
      var t := Term(b, x, y, k - 1);
      PlusBounded(ScanPrefix(b, x, y, k - 1), t);
      ScanPrefix(b, x, y, k - 1).Plus(t)
  }

  /** The Moore neighbourhood of (x, y), without wraparound: the tally of
      the nine offsets in {-1, 0, 1}^2 other than (0, 0), each position
      counted when it is on the board and alive. */
  function Neighbourhood(b: Board, x: int, y: int): (t: Tally)
    ensures t.count <= 8 && t.Bounded()
  {
    ScanPrefix(b, x, y, 9)
  }

  function LiveNeighbours(b: Board, x: int, y: int): nat
  {
    Neighbourhood(b, x, y).count
  }

  // The neighbourhood as a set, independent of the order of the scan

  /** Whether step k of the offset loops counts a neighbour. */
  predicate Counts(b: Board, x: int, y: int, k: int)
  {
    !IsCentre(k) && InBounds(b, x + OffsetX(k), y + OffsetY(k)) && b[x + OffsetX(k)][y + OffsetY(k)].alive
  }

  /** The step of the offset loops that visits position p, when p is
      within one of (x, y) in both directions. */
  function StepOf(x: int, y: int, p: (int, int)): int
  {
    3 * (p.0 - x + 1) + (p.1 - y + 1)
  }

  /** The positions the first k steps of the offset loops count. */
  ghost function CountedUpTo(b: Board, x: int, y: int, k: nat): set<(int, int)>
    requires k <= 9
  {
    if k == 0 then {}
    else CountedUpTo(b, x, y, k - 1)
         + (if Counts(b, x, y, k - 1) then {(x + OffsetX(k - 1), y + OffsetY(k - 1))} else {})
  }

  /** Every position counted so far was counted at its own step. */
  lemma {:induction false} CountedUpToSteps(b: Board, x: int, y: int, k: nat)
    requires k <= 9
    ensures forall p :: p in CountedUpTo(b, x, y, k) ==>
      0 <= StepOf(x, y, p) < k && Counts(b, x, y, StepOf(x, y, p))
      && p == (x + OffsetX(StepOf(x, y, p)), y + OffsetY(StepOf(x, y, p)))
  {
    if k > 0 {
      CountedUpToSteps(b, x, y, k - 1);
      assert StepOf(x, y, (x + OffsetX(k - 1), y + OffsetY(k - 1))) == k - 1;
    }
  }

  /** A position that counts at step j is in the set once step j is done. */
  lemma {:induction false} CountedAtStep(b: Board, x: int, y: int, k: nat, j: nat)
    requires j < k <= 9 && Counts(b, x, y, j)
    ensures (x + OffsetX(j), y + OffsetY(j)) in CountedUpTo(b, x, y, k)
  {
    if j < k - 1 {
      CountedAtStep(b, x, y, k - 1, j);
    }
  }

  /** Each step counts one position, never one counted before, so the
      scan's count is the size of the counted set. */
  lemma {:induction false} ScanPrefixCountsSet(b: Board, x: int, y: int, k: nat)
    requires k <= 9
    ensures ScanPrefix(b, x, y, k).count == |CountedUpTo(b, x, y, k)|
  {
    if k > 0 {
      ScanPrefixCountsSet(b, x, y, k - 1);
      CountedUpToSteps(b, x, y, k - 1);
      var p := (x + OffsetX(k - 1), y + OffsetY(k - 1));
      assert StepOf(x, y, p) == k - 1;
      assert p !in CountedUpTo(b, x, y, k - 1);
    }
  }

  /** The live cells on the board among the eight positions around (x, y). */
  ghost function LiveNeighbourSet(b: Board, x: int, y: int): set<(int, int)>
  {
    set i, j | x - 1 <= i <= x + 1 && y - 1 <= j <= y + 1 && (i != x || j != y)
                 && InBounds(b, i, j) && b[i][j].alive :: (i, j)
  }

  /** The live-neighbour count, whatever order the offsets are visited in,
      is the number of live cells on the board at the eight surrounding
      positions: no wraparound, and the cell itself is not counted. */
  lemma LiveNeighboursCountsSet(b: Board, x: int, y: int)
    ensures LiveNeighbours(b, x, y) == |LiveNeighbourSet(b, x, y)|
  {
    ScanPrefixCountsSet(b, x, y, 9);
    LiveNeighboursAreCounted(b, x, y);
    CountedAreLiveNeighbours(b, x, y);
    assert CountedUpTo(b, x, y, 9) == LiveNeighbourSet(b, x, y);
  }

  lemma LiveNeighboursAreCounted(b: Board, x: int, y: int)
    ensures LiveNeighbourSet(b, x, y) <= CountedUpTo(b, x, y, 9)
  {
    forall p | p in LiveNeighbourSet(b, x, y)
      ensures p in CountedUpTo(b, x, y, 9)
    {
      var (i, j) := p;
      var k := StepOf(x, y, p);
      assert OffsetX(k) == i - x by {
        if i == x - 1 { assert k < 3; } else if i == x { assert 3 <= k < 6; } else { assert 6 <= k; }
      }
      assert OffsetY(k) == j - y;
      CountedAtStep(b, x, y, 9, k);
    }
  }

  lemma CountedAreLiveNeighbours(b: Board, x: int, y: int)
    ensures CountedUpTo(b, x, y, 9) <= LiveNeighbourSet(b, x, y)
  {
    CountedUpToSteps(b, x, y, 9);
    forall p | p in CountedUpTo(b, x, y, 9)
      ensures p in LiveNeighbourSet(b, x, y)
    {
      assert Counts(b, x, y, StepOf(x, y, p));
    }
  }

  /** The number of the first k offsets that name a neighbour on the
      board: an upper bound on what they can count. */
  function Slots(b: Board, x: int, y: int, k: nat): nat
    requires k <= 9
  {
    if k == 0 then 0
    else Slots(b, x, y, k - 1)
         + (if !IsCentre(k - 1) && InBounds(b, x + OffsetX(k - 1), y + OffsetY(k - 1)) then 1 else 0)
  }

  lemma {:induction false} ScanPrefixWithinSlots(b: Board, x: int, y: int, k: nat)
    requires k <= 9
    ensures ScanPrefix(b, x, y, k).count <= Slots(b, x, y, k)
  {
    if k > 0 {
      ScanPrefixWithinSlots(b, x, y, k - 1);
    }
  }

  /** Every cell has at most eight neighbours, a cell on an edge at most
      five and a corner cell at most three: positions off the board never
      count, and there is no wraparound. */
  lemma NeighbourBounds(b: Board, w: nat, h: nat, x: nat, y: nat)
    requires IsGrid(b, w, h) && x < w && y < h
    ensures LiveNeighbours(b, x, y) <= 8
    ensures (x == 0 || x == w - 1 || y == 0 || y == h - 1) ==> LiveNeighbours(b, x, y) <= 5
    ensures (x == 0 || x == w - 1) && (y == 0 || y == h - 1) ==> LiveNeighbours(b, x, y) <= 3
  {
    ScanPrefixWithinSlots(b, x, y, 9);
    var s0, s1, s2 := Slots(b, x, y, 1) - Slots(b, x, y, 0), Slots(b, x, y, 2) - Slots(b, x, y, 1), Slots(b, x, y, 3) - Slots(b, x, y, 2);
    var s3, s5 := Slots(b, x, y, 4) - Slots(b, x, y, 3), Slots(b, x, y, 6) - Slots(b, x, y, 5);
    var s6, s7, s8 := Slots(b, x, y, 7) - Slots(b, x, y, 6), Slots(b, x, y, 8) - Slots(b, x, y, 7), Slots(b, x, y, 9) - Slots(b, x, y, 8);
    assert Slots(b, x, y, 9) == s0 + s1 + s2 + s3 + s5 + s6 + s7 + s8;
    assert x == 0 ==> s0 == 0 && s1 == 0 && s2 == 0;
    assert x == w - 1 ==> s6 == 0 && s7 == 0 && s8 == 0;
    assert y == 0 ==> s0 == 0 && s3 == 0 && s6 == 0;
    assert y == h - 1 ==> s2 == 0 && s5 == 0 && s8 == 0;
  }

  /** The channel sums of a neighbourhood fit the 16-bit accumulators of
      updateCell, so they never wrap. */
  lemma NeighbourhoodFitsUint16(b: Board, x: int, y: int)
    ensures Neighbourhood(b, x, y).count < 0x1_0000
    ensures Neighbourhood(b, x, y).r < 0x1_0000 && Neighbourhood(b, x, y).g < 0x1_0000
    ensures Neighbourhood(b, x, y).b < 0x1_0000
  {
  }

  lemma PlusBounded(s: Tally, t: Tally)
    requires s.Bounded() && t.Bounded()
    ensures s.Plus(t).Bounded()
  {
  }

  // ---------------------------------------------------------------------
  // Computing and committing one cell (updateCell, updateCells)

  /** Conway's rule: a live cell survives with 2 or 3 live neighbours, a
      dead cell is born with exactly 3. */
  predicate LifeRule(alive: bool, n: nat)
  {
    if alive then n == 2 || n == 3 else n == 3
  }

  /** The colour of a newborn cell: each channel sum divided by 3, then
      reduced modulo 256 as it is stored in a `uint8_t`. */
  function BirthColour(t: Tally): (c: Colour)
    ensures t.count == 3 && t.Bounded() ==> c == Colour(t.r / 3, t.g / 3, t.b / 3)
  {
    Colour((t.r / 3) % 256, (t.g / 3) % 256, (t.b / 3) % 256)
  }

  /** updateCell(x, y) on board b, with the accumulators starting at zero:
      a dead cell with 3 live neighbours gets `n_alive` and the birth
      colour; a live cell with 2 or 3 gets `n_alive`; `n_alive` is never
      cleared here, and nothing else changes. */
  function Computed(b: Board, x: int, y: int): (d: Cell)
    requires InBounds(b, x, y)
    ensures d.alive == b[x][y].alive
    ensures b[x][y].nextAlive ==> d.nextAlive
    ensures b[x][y].alive ==> d.colour == b[x][y].colour
  {
    var c := b[x][y];
    var t := Neighbourhood(b, x, y);
    var born := if !c.alive && t.count == 3 then c.(nextAlive := true, colour := BirthColour(t)) else c;
    if born.alive && (t.count == 2 || t.count == 3) then born.(nextAlive := true) else born
  }

  /** The commit pass on one cell: `c_alive = n_alive; n_alive = false`. */
  function Commit(c: Cell): (d: Cell)
    ensures d.alive == c.nextAlive && !d.nextAlive && d.colour == c.colour
  {
    c.(alive := c.nextAlive, nextAlive := false)
  }

  /** The step all cells take at once: each cell computed against the
      same prior board, then committed. */
  function Step(b: Board): (s: Board)
    ensures |s| == |b| && forall x :: 0 <= x < |b| ==> |s[x]| == |b[x]|
    ensures Quiet(s)
  {
    seq(|b|, x requires 0 <= x < |b| =>
      seq(|b[x]|, y requires 0 <= y < |b[x]| => Commit(Computed(b, x, y))))
  }

  /** One compute result, read through the rule: with no pending `n_alive`,
      the cell is marked for the next generation exactly when Conway's
      rule says so; a pending mark would survive. The colour changes only
      on a birth, and a live cell keeps its colour and liveness. */
  lemma ComputedFollowsRule(b: Board, x: int, y: int)
    requires InBounds(b, x, y)
    ensures var c, d := b[x][y], Computed(b, x, y);
      && d.alive == c.alive
      && (d.nextAlive <==> c.nextAlive || LifeRule(c.alive, LiveNeighbours(b, x, y)))
      && (d.colour == if !c.alive && LiveNeighbours(b, x, y) == 3 then BirthColour(Neighbourhood(b, x, y)) else c.colour)
  {
  }

  /** A birth colour is the floor mean of the three live neighbours'
      channels; it fits in a byte, so the `% 256` never bites. */
  lemma {:induction false} BirthColourIsMean(b: Board, x: int, y: int)
    requires LiveNeighbours(b, x, y) == 3
    ensures var t := Neighbourhood(b, x, y);
      BirthColour(t) == Colour(t.r / 3, t.g / 3, t.b / 3)
  {
  }

  /** One channel of a birth colour as updateCell computes it when its
      16-bit accumulator starts from `start` instead of zero: the sum wraps
      at 2^16, is divided by 3 and is stored in a byte. With a zero start
      and at most three full channels it is the floor mean. */
  function BirthChannelFrom(start: nat, sum: nat): (c: Byte)
    requires start < 0x1_0000
    ensures start == 0 && sum <= 3 * 255 ==> c == sum / 3
  {
    var acc := (start + sum) % 0x1_0000;
    assert start == 0 && sum <= 3 * 255 ==> acc == sum && acc / 3 < 256;
    (acc / 3) % 256
  }

  /** A stale accumulator changes the birth colour: three pure red parents
      give a red channel of 255 from a zeroed accumulator, but 0 when the
      accumulator happens to start at 3. */
  lemma StaleAccumulatorSkewsBirth()
    ensures BirthChannelFrom(0, 3 * 255) == 255
    ensures BirthChannelFrom(3, 3 * 255) == 0
  {
  }

  /** With zeroed accumulators every channel of a birth colour is the
      accumulator-from-zero value, so BirthColour is the corrected form. */
  lemma {:induction false} BirthColourStartsFromZero(b: Board, x: int, y: int)
    requires LiveNeighbours(b, x, y) == 3
    ensures var t := Neighbourhood(b, x, y);
      BirthColour(t) == Colour(BirthChannelFrom(0, t.r), BirthChannelFrom(0, t.g), BirthChannelFrom(0, t.b))
  {
    BirthColourIsMean(b, x, y);
  }

  /** The step respects Conway's rule when colour is ignored, clears every
      pending mark, keeps the colour of every cell that is not born, and
      gives newborns the mean colour of their three parents. */
  lemma {:induction false} StepFollowsRule(b: Board, x: int, y: int)
    requires Quiet(b) && InBounds(b, x, y)
    ensures InBounds(Step(b), x, y)
    ensures var c, n, d := b[x][y], LiveNeighbours(b, x, y), Step(b)[x][y];
      && (d.alive <==> LifeRule(c.alive, n))
      && !d.nextAlive
      && (!c.alive && n == 3 ==>
            var t := Neighbourhood(b, x, y); d.colour == Colour(t.r / 3, t.g / 3, t.b / 3))
      && (c.alive || n != 3 ==> d.colour == c.colour)
  {
    ComputedFollowsRule(b, x, y);
    if !b[x][y].alive && LiveNeighbours(b, x, y) == 3 {
      BirthColourIsMean(b, x, y);
    }
  }

  // ---------------------------------------------------------------------
  // Births in one colour

  /** Every live cell on the board has colour c. */
  ghost predicate Monochrome(b: Board, c: Colour)
  {
    forall i, j :: InBounds(b, i, j) && b[i][j].alive ==> b[i][j].colour == c
  }

  /** On a board in one colour each offset step adds nothing or one cell
      of that colour. */
  lemma TermMono(b: Board, x: int, y: int, c: Colour, k: int)
    requires Monochrome(b, c)
    ensures Term(b, x, y, k) == NoTally || Term(b, x, y, k) == Tally(1, c.r, c.g, c.b)
  {
  }

  /** Each channel sum of a partial scan over a board in one colour is the
      count times that colour's channel. */
  lemma {:induction false} ScanMono(b: Board, x: int, y: int, c: Colour, k: nat)
    requires Monochrome(b, c) && k <= 9
    ensures var t := ScanPrefix(b, x, y, k);
      t.r == t.count * c.r && t.g == t.count * c.g && t.b == t.count * c.b
  {
    if k > 0 {
      ScanMono(b, x, y, c, k - 1);
      TermMono(b, x, y, c, k - 1);
      PlusUniform(ScanPrefix(b, x, y, k - 1), Term(b, x, y, k - 1), c);
    }
  }

  /** Adding nothing, or one cell of colour c, to a tally whose channel
      sums are the count times c keeps that shape. */
  lemma PlusUniform(s: Tally, t: Tally, c: Colour)
    requires s.r == s.count * c.r && s.g == s.count * c.g && s.b == s.count * c.b
    requires t == NoTally || t == Tally(1, c.r, c.g, c.b)
    ensures var u := s.Plus(t); u.r == u.count * c.r && u.g == u.count * c.g && u.b == u.count * c.b
  {
    if t != NoTally {
      assert (s.count + 1) * c.r == s.count * c.r + c.r;
      assert (s.count + 1) * c.g == s.count * c.g + c.g;
      assert (s.count + 1) * c.b == s.count * c.b + c.b;
    }
  }

  /** A cell born to three parents of one colour takes that colour: the
      mean of three equal channels is the channel itself. So a pattern in
      one colour keeps its colour as it evolves. */
  lemma MonochromeBirth(b: Board, x: int, y: int, c: Colour)
    requires Quiet(b) && InBounds(b, x, y) && Monochrome(b, c)
    requires !b[x][y].alive && LiveNeighbours(b, x, y) == 3
    ensures InBounds(Step(b), x, y)
    ensures Step(b)[x][y].alive && Step(b)[x][y].colour == c
  {
    var t := Neighbourhood(b, x, y);
    ScanMono(b, x, y, c, 9);
    assert t.r / 3 == c.r && t.g / 3 == c.g && t.b / 3 == c.b;
    StepFollowsRule(b, x, y);
  }

  /** A step keeps a board in one colour: newborns take the colour, and
      every other cell keeps its own. */
  lemma MonochromeStep(b: Board, c: Colour)
    requires Quiet(b) && Monochrome(b, c)
    ensures Monochrome(Step(b), c)
  {
    forall i, j | InBounds(Step(b), i, j) && Step(b)[i][j].alive
      ensures Step(b)[i][j].colour == c
    {
      StepFollowsRule(b, i, j);
      if !b[i][j].alive && LiveNeighbours(b, i, j) == 3 {
        MonochromeBirth(b, i, j, c);
      }
    }
  }

  lemma StepShape(b: Board, w: nat, h: nat)
    requires IsGrid(b, w, h)
    ensures IsGrid(Step(b), w, h) && Quiet(Step(b))
  {
  }

  // ---------------------------------------------------------------------
  // Why the in-place compute pass equals the simultaneous step

  /** Two boards that agree on which cells are alive and on the colours of
      the live ones. Only this part of a board is read by a neighbourhood
      tally. */
  ghost predicate SameLiveView(a: Board, b: Board)
  {
    && |a| == |b|
    && (forall x :: 0 <= x < |a| ==> |a[x]| == |b[x]|)
    && (forall x, y :: InBounds(a, x, y) ==> a[x][y].alive == b[x][y].alive)
    && (forall x, y :: InBounds(a, x, y) && a[x][y].alive ==> a[x][y].colour == b[x][y].colour)
  }

  lemma {:induction false} ContributionOfLiveView(a: Board, b: Board, i: int, j: int)
    requires SameLiveView(a, b)
    ensures Contribution(a, i, j) == Contribution(b, i, j)
  {
    if InBounds(a, i, j) {
      assert a[i][j].alive == b[i][j].alive;
    }
  }

  /** A tally reads only the live view of the board. */
  lemma {:induction false} ScanPrefixOfLiveView(a: Board, b: Board, x: int, y: int, k: nat)
    requires SameLiveView(a, b) && k <= 9
    ensures ScanPrefix(a, x, y, k) == ScanPrefix(b, x, y, k)
  {
    if k > 0 {
      ScanPrefixOfLiveView(a, b, x, y, k - 1);
      ContributionOfLiveView(a, b, x + OffsetX(k - 1), y + OffsetY(k - 1));
    }
  }

  lemma NeighbourhoodOfLiveView(a: Board, b: Board, x: int, y: int)
    requires SameLiveView(a, b)
    ensures Neighbourhood(a, x, y) == Neighbourhood(b, x, y)
  {
    ScanPrefixOfLiveView(a, b, x, y, 9);
  }

  /** updateCell's write as a value: the board with cell (x, y) replaced
      by its compute result, every other cell as it was. */
  function UpdateAt(b: Board, x: int, y: int): (u: Board)
    requires InBounds(b, x, y)
    ensures |u| == |b| && forall i :: 0 <= i < |b| ==> |u[i]| == |b[i]|
    ensures u[x][y] == Computed(b, x, y)
    ensures forall i, j :: InBounds(b, i, j) && (i != x || j != y) ==> u[i][j] == b[i][j]
  {
    b[x := b[x][y := Computed(b, x, y)]]
  }

  /** Computing one cell leaves the live view unchanged: liveness is not
      touched, and only a dead cell's colour is rewritten. */
  lemma {:induction false} UpdateAtKeepsLiveView(b: Board, x: int, y: int)
    requires InBounds(b, x, y)
    ensures SameLiveView(UpdateAt(b, x, y), b)
  {
    var u := UpdateAt(b, x, y);
    ComputedFollowsRule(b, x, y);
    forall i, j | InBounds(u, i, j)
      ensures u[i][j].alive == b[i][j].alive
      ensures u[i][j].alive ==> u[i][j].colour == b[i][j].colour
    {
      if i == x && j == y {
      }
    }
  }

  /** A cell computed against a board whose live view is unchanged gets the
      same result as against the original board. */
  lemma {:induction false} ComputedOfLiveView(a: Board, b: Board, x: int, y: int)
    requires SameLiveView(a, b) && InBounds(b, x, y) && a[x][y] == b[x][y]
    ensures Computed(a, x, y) == Computed(b, x, y)
  {
    NeighbourhoodOfLiveView(a, b, x, y);
  }

  /** The order of the compute pass does not matter: computing two cells in
      place gives the same board whichever is computed first. */
  lemma {:induction false} UpdatesCommute(b: Board, x1: int, y1: int, x2: int, y2: int)
    requires InBounds(b, x1, y1) && InBounds(b, x2, y2) && (x1, y1) != (x2, y2)
    ensures UpdateAt(UpdateAt(b, x1, y1), x2, y2) == UpdateAt(UpdateAt(b, x2, y2), x1, y1)
  {
    var c1, c2 := Computed(b, x1, y1), Computed(b, x2, y2);
    var u1, u2 := UpdateAt(b, x1, y1), UpdateAt(b, x2, y2);
    UpdateAtKeepsLiveView(b, x1, y1);
    UpdateAtKeepsLiveView(b, x2, y2);
    ComputedOfLiveView(u1, b, x2, y2);
    ComputedOfLiveView(u2, b, x1, y1);
    var both := if x1 == x2 then b[x1 := b[x1][y1 := c1][y2 := c2]]
                else b[x1 := b[x1][y1 := c1]][x2 := b[x2][y2 := c2]];
    assert UpdateAt(u1, x2, y2) == u1[x2 := u1[x2][y2 := c2]];
    assert UpdateAt(u2, x1, y1) == u2[x1 := u2[x1][y1 := c1]];
    if x1 == x2 {
      assert u1[x2][y2 := c2] == b[x1][y1 := c1][y2 := c2];
      assert u2[x1][y1 := c1] == b[x1][y1 := c1][y2 := c2];
    }
  }

  // ---------------------------------------------------------------------
  // Scenarios

  /** Proof helper: k steps in succession, the generations the timer
      produces one per frame. */
  function Steps(b: Board, k: nat): Board
  {
    if k == 0 then b else Step(Steps(b, k - 1))
  }

  /** On an all-dead board no position contributes to any tally. */
  lemma {:induction false} NoNeighboursWhenAllDead(b: Board, x: int, y: int, k: nat)
    requires AllDead(b) && k <= 9
    ensures ScanPrefix(b, x, y, k) == NoTally
  {
    if k > 0 {
      NoNeighboursWhenAllDead(b, x, y, k - 1);
      assert Contribution(b, x + OffsetX(k - 1), y + OffsetY(k - 1)) == NoTally;
    }
  }

  /** An empty, quiet board stays empty and quiet for any number of steps. */
  lemma {:induction false} EmptyStaysEmpty(b: Board, k: nat)
    requires AllDead(b) && Quiet(b)
    ensures AllDead(Steps(b, k)) && Quiet(Steps(b, k))
  {
    if k > 0 {
      EmptyStaysEmpty(b, k - 1);
      var p := Steps(b, k - 1);
      forall x, y | InBounds(Step(p), x, y)
        ensures !Step(p)[x][y].alive && !Step(p)[x][y].nextAlive
      {
        NoNeighboursWhenAllDead(p, x, y, 9);
        StepFollowsRule(p, x, y);
      }
    }
  }
}
