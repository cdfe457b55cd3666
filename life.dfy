/**
 * The Game of Life effect of art_gameoflife.c: a toroidal world of 0/1
 * cells in a row-major array, stepped synchronously by the B3/S23 rule
 * through a second array, and drawn as `#` characters.
 */
module Life {
  import opened Cells
  import opened Palette
  import Buffer

  // ---------------------------------------------------------------------
  // The rule on sequences
  // ---------------------------------------------------------------------

  /** Every cell is dead (0) or alive (1). */
  predicate Binary(s: seq<int>) {
    forall k :: 0 <= k < |s| ==> s[k] == 0 || s[k] == 1
  }

  /**
   * `(v + n) % n` for a coordinate one step off the grid: the neighbour
   * across the edge. The left operand is never negative here, so C's `%`
   * and Dafny's agree.
   */
  function Wrap(v: int, n: int): (r: int)
    requires n > 0 && -1 <= v <= n
    ensures 0 <= r < n
    ensures r == if v < 0 then n - 1 else if v == n then 0 else v
  {
    (v + n) % n
  }

  /** What the neighbour at offset (j, i) of (x, y) adds to the count; the cell itself adds nothing. */
  function Contribution(s: seq<int>, w: nat, h: nat, x: int, y: int, i: int, j: int): int
    requires |s| == w * h && 0 <= x < w && 0 <= y < h && -1 <= i <= 1 && -1 <= j <= 1
  {
    if i == 0 && j == 0 then 0
    else
      Buffer.IndexInRange(Wrap(x + j, w), Wrap(y + i, h), w, h);
      s[Wrap(y + i, h) * w + Wrap(x + j, w)]
  }

  /** Off the centre, a contribution is the cell at the wrapped index the source computes. */
  lemma ContributionAt(s: seq<int>, w: nat, h: nat, x: int, y: int, i: int, j: int)
    requires |s| == w * h && 0 <= x < w && 0 <= y < h && -1 <= i <= 1 && -1 <= j <= 1 && !(i == 0 && j == 0)
    ensures 0 <= (y + i + h) % h * w + (x + j + w) % w < |s|
    ensures Contribution(s, w, h, x, y, i, j) == s[(y + i + h) % h * w + (x + j + w) % w]
  {
    Buffer.IndexInRange(Wrap(x + j, w), Wrap(y + i, h), w, h);
  }

  /**
   * The contributions along row `r` of the 3 by 3 window around (x, y),
   * from column `x - 1` up to, not including, column `c` (unwrapped
   * coordinates; the wrapping is in `Contribution`).
   */
  function RowSum(s: seq<int>, w: nat, h: nat, x: int, y: int, r: int, c: int): int
    requires |s| == w * h && 0 <= x < w && 0 <= y < h && y - 1 <= r <= y + 1 && x - 1 <= c <= x + 2
    decreases c - x + 1
  {
    if c == x - 1 then 0 else RowSum(s, w, h, x, y, r, c - 1) + Contribution(s, w, h, x, y, r - y, c - 1 - x)
  }

  /** The contributions of the window's rows from `y - 1` up to, not including, row `r`. */
  function RowsSum(s: seq<int>, w: nat, h: nat, x: int, y: int, r: int): int
    requires |s| == w * h && 0 <= x < w && 0 <= y < h && y - 1 <= r <= y + 2
    decreases r - y + 1
  {
    if r == y - 1 then 0 else RowsSum(s, w, h, x, y, r - 1) + RowSum(s, w, h, x, y, r - 1, x + 2)
  }

  /** The live neighbours of (x, y): the whole window, the centre counting nothing. */
  function Neighbors(s: seq<int>, w: nat, h: nat, x: int, y: int): int
    requires |s| == w * h && 0 <= x < w && 0 <= y < h
  {
    RowsSum(s, w, h, x, y, y + 2)
  }

  /** One row of the window is its three contributions. */
  lemma RowExplicit(s: seq<int>, w: nat, h: nat, x: int, y: int, r: int)
    requires |s| == w * h && 0 <= x < w && 0 <= y < h && y - 1 <= r <= y + 1
    ensures RowSum(s, w, h, x, y, r, x + 2) ==
      Contribution(s, w, h, x, y, r - y, -1) + Contribution(s, w, h, x, y, r - y, 0) + Contribution(s, w, h, x, y, r - y, 1)
  {
    assert RowSum(s, w, h, x, y, r, x) == Contribution(s, w, h, x, y, r - y, -1);
    assert RowSum(s, w, h, x, y, r, x + 1) == RowSum(s, w, h, x, y, r, x) + Contribution(s, w, h, x, y, r - y, 0);
  }

  /** The neighbour count is the sum of the eight surrounding cells, each wrapped on the torus. */
  lemma NeighborsExplicit(s: seq<int>, w: nat, h: nat, x: int, y: int)
    requires |s| == w * h && 0 <= x < w && 0 <= y < h
    ensures Neighbors(s, w, h, x, y) ==
      Contribution(s, w, h, x, y, -1, -1) + Contribution(s, w, h, x, y, -1, 0) + Contribution(s, w, h, x, y, -1, 1) +
      Contribution(s, w, h, x, y, 0, -1) + Contribution(s, w, h, x, y, 0, 1) +
      Contribution(s, w, h, x, y, 1, -1) + Contribution(s, w, h, x, y, 1, 0) + Contribution(s, w, h, x, y, 1, 1)
  {
    RowExplicit(s, w, h, x, y, y - 1);
    RowExplicit(s, w, h, x, y, y);
    RowExplicit(s, w, h, x, y, y + 1);
    assert RowsSum(s, w, h, x, y, y) == RowSum(s, w, h, x, y, y - 1, x + 2);
    assert RowsSum(s, w, h, x, y, y + 1) == RowsSum(s, w, h, x, y, y) + RowSum(s, w, h, x, y, y, x + 2);
  }

  /** With 0/1 cells the count is between 0 and 8. */
  lemma NeighborsBound(s: seq<int>, w: nat, h: nat, x: int, y: int)
    requires |s| == w * h && 0 <= x < w && 0 <= y < h && Binary(s)
    ensures 0 <= Neighbors(s, w, h, x, y) <= 8
  {
    NeighborsExplicit(s, w, h, x, y);
    forall i, j | -1 <= i <= 1 && -1 <= j <= 1
      ensures 0 <= Contribution(s, w, h, x, y, i, j) <= 1
    {
      if !(i == 0 && j == 0) {
        Buffer.IndexInRange(Wrap(x + j, w), Wrap(y + i, h), w, h);
      }
    }
  }

  /** The next state of one cell with `n` live neighbours, in the order the source tests. */
  function Rule(cell: int, n: int): int {
    if cell != 0 && (n < 2 || n > 3) then 0
    else if cell == 0 && n == 3 then 1
    else cell
  }

  /** B3/S23: a 0/1 cell is alive next iff it has three neighbours, or is alive with two. */
  lemma RuleIsB3S23(cell: int, n: int)
    requires cell == 0 || cell == 1
    ensures Rule(cell, n) == 0 || Rule(cell, n) == 1
    ensures Rule(cell, n) == 1 <==> n == 3 || (cell == 1 && n == 2)
  {
  }

  /** One synchronous step: every new cell is computed from the old world only. */
  function Step(s: seq<int>, w: nat, h: nat): (r: seq<int>)
    requires |s| == w * h
    ensures |r| == |s|
  {
    seq(|s|, k requires 0 <= k < |s| =>
      CellOf(k, w, h);
      Rule(s[k], Neighbors(s, w, h, k % w, k / w)))
  }

  /** An index of a `w` by `h` grid is the cell at column `k % w` of row `k / w`. */
  lemma CellOf(k: int, w: nat, h: nat)
    requires 0 <= k < w * h
    ensures w > 0 && Buffer.InGrid(k % w, k / w, w, h) && Buffer.Index(k % w, k / w, w) == k
  {
    if k / w >= h {
      Buffer.MulAtLeast(k / w - h + 1, w);
    }
  }

  /**
   * The step keeps cells 0/1 and follows B3/S23 everywhere: cell (x, y)
   * is alive afterwards iff it had three live neighbours, or was alive and
   * had two.
   */
  lemma StepSpec(s: seq<int>, w: nat, h: nat)
    requires |s| == w * h && Binary(s)
    ensures Binary(Step(s, w, h))
    ensures forall x, y :: 0 <= x < w && 0 <= y < h ==>
      0 <= Buffer.Index(x, y, w) < |s| &&
      (Step(s, w, h)[Buffer.Index(x, y, w)] == 1 <==>
        Neighbors(s, w, h, x, y) == 3 || (s[Buffer.Index(x, y, w)] == 1 && Neighbors(s, w, h, x, y) == 2))
  {
    forall k | 0 <= k < |s| ensures Step(s, w, h)[k] == 0 || Step(s, w, h)[k] == 1 {
      CellOf(k, w, h);
      RuleIsB3S23(s[k], Neighbors(s, w, h, k % w, k / w));
    }
    forall x, y | 0 <= x < w && 0 <= y < h
      ensures 0 <= Buffer.Index(x, y, w) < |s|
      ensures Step(s, w, h)[Buffer.Index(x, y, w)] == 1 <==>
        Neighbors(s, w, h, x, y) == 3 || (s[Buffer.Index(x, y, w)] == 1 && Neighbors(s, w, h, x, y) == 2)
    {
      Buffer.IndexInRange(x, y, w, h);
      var k := Buffer.Index(x, y, w);
      RuleIsB3S23(s[k], Neighbors(s, w, h, x, y));
    }
  }

  /** In a world with no live cell, no cell has a live neighbour. */
  lemma NoLiveNeighbors(s: seq<int>, w: nat, h: nat, x: int, y: int)
    requires |s| == w * h && 0 <= x < w && 0 <= y < h
    requires forall k :: 0 <= k < |s| ==> s[k] == 0
    ensures Neighbors(s, w, h, x, y) == 0
  {
    NeighborsExplicit(s, w, h, x, y);
    forall i, j | -1 <= i <= 1 && -1 <= j <= 1 ensures Contribution(s, w, h, x, y, i, j) == 0 {
      if !(i == 0 && j == 0) {
        Buffer.IndexInRange(Wrap(x + j, w), Wrap(y + i, h), w, h);
      }
    }
  }

  /** An empty world stays empty. */
  lemma EmptyStaysEmpty(s: seq<int>, w: nat, h: nat)
    requires |s| == w * h && forall k :: 0 <= k < |s| ==> s[k] == 0
    ensures Step(s, w, h) == s
  {
    forall k | 0 <= k < w * h ensures Step(s, w, h)[k] == 0 {
      CellOf(k, w, h);
      NoLiveNeighbors(s, w, h, k % w, k / w);
    }
  }

  /** Cell (x, y) of the step is the rule applied to that cell and its neighbour count. */
  lemma StepAt(s: seq<int>, w: nat, h: nat, x: int, y: int)
    requires |s| == w * h && 0 <= x < w && 0 <= y < h
    ensures 0 <= y * w + x < |s|
    ensures Step(s, w, h)[y * w + x] == Rule(s[y * w + x], Neighbors(s, w, h, x, y))
  {
    Buffer.IndexInRange(x, y, w, h);
    var k := Buffer.Index(x, y, w);
    assert Step(s, w, h)[k] == Rule(s[k], Neighbors(s, w, h, k % w, k / w));
  }

  /** Cell (x, y) of `t` holds the rule applied to that cell of `s` and its neighbour count. */
  predicate Computed(t: seq<int>, s: seq<int>, w: nat, h: nat, x: int, y: int)
    requires |t| == |s| == w * h && 0 <= x < w && 0 <= y < h
  {
    Buffer.IndexInRange(x, y, w, h);
    t[y * w + x] == Rule(s[y * w + x], Neighbors(s, w, h, x, y))
  }

  /** Writing one cell keeps every other cell's `Computed` and makes that cell's hold. */
  lemma ComputedFrame(t: seq<int>, t': seq<int>, s: seq<int>, w: nat, h: nat, x: int, y: int)
    requires |t| == |t'| == |s| == w * h && 0 <= x < w && 0 <= y < h
    requires 0 <= y * w + x < |t|
    requires t' == t[y * w + x := Rule(s[y * w + x], Neighbors(s, w, h, x, y))]
    ensures Computed(t', s, w, h, x, y)
    ensures forall y', x' :: 0 <= y' < h && 0 <= x' < w && (y', x') != (y, x) ==>
      (Computed(t', s, w, h, x', y') <==> Computed(t, s, w, h, x', y'))
  {
    forall y', x' | 0 <= y' < h && 0 <= x' < w && (y', x') != (y, x)
      ensures Computed(t', s, w, h, x', y') <==> Computed(t, s, w, h, x', y')
    {
      Buffer.IndexInRange(x', y', w, h);
      Buffer.IndexInRange(x, y, w, h);
    }
  }

  /** A sequence whose every cell is `Computed` is the step. */
  lemma StepFromCells(t: seq<int>, s: seq<int>, w: nat, h: nat)
    requires |t| == |s| == w * h
    requires forall y, x :: 0 <= y < h && 0 <= x < w ==> Computed(t, s, w, h, x, y)
    ensures t == Step(s, w, h)
  {
    forall k | 0 <= k < |t| ensures t[k] == Step(s, w, h)[k] {
      CellOf(k, w, h);
      assert Computed(t, s, w, h, k % w, k / w);
    }
  }

  /** The screen after drawing: each live cell stamped with `#` in `fg` on black, dead cells kept. */
  function Painted(s: seq<Cell>, world: seq<int>, fg: Color, upTo: int): (r: seq<Cell>)
    requires |world| == |s|
    ensures |r| == |s|
  {
    seq(|s|, k requires 0 <= k < |s| =>
      if k < upTo && world[k] != 0 then Buffer.Stamp(s[k], '#', fg, Black) else s[k])
  }

  // ---------------------------------------------------------------------
  // The effect's state
  // ---------------------------------------------------------------------

  /** The two static arrays `world` and `next_world`. */
  class Life {
    var world: array<int>
    var next: array<int>

    /** Both pointers start out null; empty arrays stand for them. */
    constructor ()
      ensures world.Length == 0 && next.Length == 0 && world != next
    {
      world := new int[0];
      next := new int[0];
    }

    /**
     * `gol_init`: both arrays get `w*h` cells, and cell `i` is alive when
     * the `i`-th `rand()` is a multiple of 4, so every cell is 0 or 1.
     */
    method Init(w: nat, h: nat, rand: int -> nat)
      modifies this
      ensures fresh(world) && fresh(next) && world != next
      ensures world.Length == w * h && next.Length == w * h
      ensures world[..] == seq(w * h, i => if rand(i) % 4 == 0 then 1 else 0)
      ensures Binary(world[..])
    {
      world := new int[w * h](i => if rand(i) % 4 == 0 then 1 else 0);
      next := new int[w * h];
    }

    /** The inner offset loop for row offset `i`: the live cells of that window row, skipping the cell itself. */
    method CountRow(w: nat, h: nat, x: int, y: int, i: int) returns (m: int)
      requires world.Length == w * h && 0 <= x < w && 0 <= y < h && -1 <= i <= 1
      ensures m == RowSum(world[..], w, h, x, y, y + i, x + 2)
    {
      ghost var s := world[..];
      m := 0;
      var j := -1;
      while j <= 1
        invariant -1 <= j <= 2
        invariant m == RowSum(s, w, h, x, y, y + i, x + j)
      {
        if i == 0 && j == 0 {
          j := j + 1;
          continue;
        }
        ContributionAt(s, w, h, x, y, i, j);
        var nx := (x + j + w) % w;
        var ny := (y + i + h) % h;
        m := m + world[ny * w + nx];
        j := j + 1;
      }
    }

    /** The neighbour count for (x, y): the two offset loops, skipping the cell itself. */
    method CountNeighbors(w: nat, h: nat, x: int, y: int) returns (n: int)
      requires world.Length == w * h && 0 <= x < w && 0 <= y < h
      ensures n == Neighbors(world[..], w, h, x, y)
    {
      n := 0;
      var i := -1;
      while i <= 1
        invariant -1 <= i <= 2
        invariant n == RowsSum(world[..], w, h, x, y, y + i)
      {
        var m := CountRow(w, h, x, y, i);
        n := n + m;
        i := i + 1;
      }
    }

    /**
     * `gol_update`: fill `next` cell by cell from the old world, then copy
     * it over `world`. Afterwards both hold one B3/S23 step of the old world.
     */
    method Update(w: nat, h: nat)
      requires world != next && world.Length == w * h && next.Length == w * h
      modifies world, next
      ensures world[..] == Step(old(world[..]), w, h)
      ensures next[..] == world[..]
    {
      ghost var s := world[..];
      var y := 0;
      while y < h
        invariant 0 <= y <= h
        invariant world[..] == s
        invariant forall y', x' :: 0 <= y' < y && 0 <= x' < w ==> Computed(next[..], s, w, h, x', y')
      {
        var x := 0;
        while x < w
          invariant 0 <= x <= w
          invariant world[..] == s
          invariant forall y', x' :: 0 <= y' < y && 0 <= x' < w ==> Computed(next[..], s, w, h, x', y')
          invariant forall x' :: 0 <= x' < x ==> Computed(next[..], s, w, h, x', y)
        {
          Buffer.IndexInRange(x, y, w, h);
          var neighbors := CountNeighbors(w, h, x, y);
          var current := world[y * w + x];
          ghost var before := next[..];
          if current != 0 && (neighbors < 2 || neighbors > 3) {
            next[y * w + x] := 0;
          } else if current == 0 && neighbors == 3 {
            next[y * w + x] := 1;
          } else {
            next[y * w + x] := current;
          }
          ComputedFrame(before, next[..], s, w, h, x, y);
          x := x + 1;
        }
        y := y + 1;
      }
      StepFromCells(next[..], s, w, h);
      forall k | 0 <= k < world.Length {
        world[k] := next[k];
      }
    }

    /**
     * `gol_draw`: every live cell `i` is drawn at (`i % w`, `i / w`) as `#`
     * in the palette's first colour on black; dead cells are left alone.
     */
    method Draw(screen: Buffer.Screen, p: Palette)
      requires screen.Ready() && WellFormed(p)
      requires world.Length == screen.cur.width * screen.cur.height
      modifies screen.cur.cells
      ensures screen.Ready()
      ensures screen.cur.cells[..] == Painted(old(screen.cur.cells[..]), world[..], p.colors[0], world.Length)
      ensures screen.prev.cells[..] == old(screen.prev.cells[..])
    {
      var w, h := screen.cur.width, screen.cur.height;
      ghost var s := screen.cur.cells[..];
      var i := 0;
      while i < w * h
        invariant 0 <= i <= w * h
        invariant screen.Ready() && screen.cur.width == w && screen.cur.height == h
        invariant screen.prev.cells[..] == old(screen.prev.cells[..])
        invariant screen.cur.cells[..] == Painted(s, world[..], p.colors[0], i)
      {
        if world[i] != 0 {
          CellOf(i, w, h);
          Buffer.PlotSpec(screen.cur.cells[..], w, h, i % w, i / w, '#', p.colors[0], Black);
          screen.DrawChar(i % w, i / w, '#', p.colors[0], Black);
        }
        i := i + 1;
      }
    }
  }
}
