/**
 * The screen buffers of buffer.c: a `Grid` is one `ScreenBuffer` (a
 * row-major array of cells with its width and height), and `Screen` is the
 * pair of static buffers `current_buffer`/`prev_buffer` together with the
 * operations that draw into the current one and flush it.
 *
 * The contracts of the methods are stated with specification functions on
 * sequences of cells (`Plot`, `PlotText`, `PlotPoints`, `Cleared`,
 * `Diff.FlushTokens`); the lemmas below say what those functions mean.
 */
module Buffer {
  import opened Cells
  import opened Diff
  import Line

  // ---------------------------------------------------------------------
  // Cell addressing
  // ---------------------------------------------------------------------

  /** Whether (x, y) lies on a `w` by `h` grid. */
  predicate InGrid(x: int, y: int, w: int, h: int) {
    0 <= x < w && 0 <= y < h
  }

  /** The row-major index of (x, y), as the source computes it. */
  function Index(x: int, y: int, w: int): int {
    y * w + x
  }

  /** An in-grid point has an index inside the grid, and the index gives its row and column back. */
  lemma IndexInRange(x: int, y: int, w: int, h: int)
    requires InGrid(x, y, w, h)
    ensures 0 <= Index(x, y, w) < w * h
    ensures Index(x, y, w) / w == y && Index(x, y, w) % w == x
  {
    assert y * w + x < (y + 1) * w <= h * w;
    DivModUnique(Index(x, y, w), w, y, x);
  }

  lemma DivModUnique(a: int, w: int, q: int, r: int)
    requires w > 0 && 0 <= r < w && a == q * w + r
    ensures a / w == q && a % w == r
  {
    var q', r' := a / w, a % w;
    if q' > q {
      MulAtLeast(q' - q, w);
    } else if q' < q {
      MulAtLeast(q - q', w);
    }
  }

  lemma MulAtMost(a: nat, b: nat, w: nat)
    requires a <= b
    ensures a * w <= w * b
  {
  }

  lemma MulAtLeast(k: int, w: int)
    requires w > 0 && k >= 1
    ensures k * w >= w
  {
  }

  /** The cell `c` after a write of `ch` in colours `fg` on `bg`; `dirty` is kept. */
  function Stamp(c: Cell, ch: char, fg: Color, bg: Color): Cell {
    c.(ch := ch, fg := fg, bg := bg)
  }

  // ---------------------------------------------------------------------
  // Specification functions
  // ---------------------------------------------------------------------

  /** The cells after one clipped write at (x, y): `buffer_draw_char`/`buffer_set_char`. */
  function Plot(s: seq<Cell>, w: nat, h: nat, x: int, y: int, ch: char, fg: Color, bg: Color): (r: seq<Cell>)
    requires |s| == w * h
    ensures |r| == |s|
  {
    if InGrid(x, y, w, h) then
      IndexInRange(x, y, w, h);
      s[Index(x, y, w) := Stamp(s[Index(x, y, w)], ch, fg, bg)]
    else s
  }

  /** The cells after writing `t[0]`, `t[1]`, ... at (x, y), (x+1, y), ... in turn. */
  function PlotText(s: seq<Cell>, w: nat, h: nat, x: int, y: int, t: seq<char>, fg: Color, bg: Color): (r: seq<Cell>)
    requires |s| == w * h
    ensures |r| == |s|
    decreases |t|
  {
    if |t| == 0 then s
    else Plot(PlotText(s, w, h, x, y, t[..|t| - 1], fg, bg), w, h, x + |t| - 1, y, t[|t| - 1], fg, bg)
  }

  /** The cells after writing `ch` in `fg` on `bg` at each point of `ps` in turn. */
  function PlotPoints(s: seq<Cell>, w: nat, h: nat, ps: seq<(int, int)>, ch: char, fg: Color, bg: Color): (r: seq<Cell>)
    requires |s| == w * h
    ensures |r| == |s|
    decreases |ps|
  {
    if |ps| == 0 then s
    else PlotPoints(Plot(s, w, h, ps[0].0, ps[0].1, ch, fg, bg), w, h, ps[1..], ch, fg, bg)
  }

  /** The indices of the in-grid points of `ps`. */
  function Covered(ps: seq<(int, int)>, w: nat, h: nat): set<int> {
    set k | 0 <= k < |ps| && InGrid(ps[k].0, ps[k].1, w, h) :: Index(ps[k].0, ps[k].1, w)
  }

  /** What `buffer_clear` leaves: every cell blanked. */
  function Cleared(s: seq<Cell>): (r: seq<Cell>)
    ensures |r| == |s|
  {
    seq(|s|, i requires 0 <= i < |s| => Blank(s[i]))
  }

  /** The characters of a C string: everything before the first NUL. */
  function CString(text: seq<char>): seq<char>
    requires '\0' in text
  {
    if text[0] == '\0' then [] else [text[0]] + CString(text[1..])
  }

  /** The previous grid `init_buffer` leaves: spaces with `dirty` set, colours as allocated. */
  function InitialPrev(junk: int -> Cell, n: nat): seq<Cell> {
    seq(n, i => junk(i).(ch := ' ', dirty := 1))
  }

  // ---------------------------------------------------------------------
  // What the specification functions mean
  // ---------------------------------------------------------------------

  /**
   * A write changes exactly the cell at index `y*w + x` when (x, y) is on
   * the grid, and nothing at all otherwise.
   */
  lemma PlotSpec(s: seq<Cell>, w: nat, h: nat, x: int, y: int, ch: char, fg: Color, bg: Color)
    requires |s| == w * h
    ensures InGrid(x, y, w, h) ==>
      0 <= Index(x, y, w) < |s| && Plot(s, w, h, x, y, ch, fg, bg)[Index(x, y, w)] == Stamp(s[Index(x, y, w)], ch, fg, bg)
    ensures forall j :: 0 <= j < |s| && (!InGrid(x, y, w, h) || j != Index(x, y, w)) ==>
      Plot(s, w, h, x, y, ch, fg, bg)[j] == s[j]
  {
    if InGrid(x, y, w, h) {
      IndexInRange(x, y, w, h);
    }
  }

  /** Cells outside row `y`, columns x..x+|t|-1, are untouched by `PlotText`. */
  lemma {:induction false} PlotTextOutside(s: seq<Cell>, w: nat, h: nat, x: int, y: int, t: seq<char>, fg: Color, bg: Color, j: int)
    requires |s| == w * h && 0 <= j < |s|
    requires j / w != y || j % w < x || x + |t| <= j % w
    ensures PlotText(s, w, h, x, y, t, fg, bg)[j] == s[j]
    decreases |t|
  {
    if |t| > 0 {
      var n := |t| - 1;
      PlotTextOutside(s, w, h, x, y, t[..n], fg, bg, j);
      PlotSpec(PlotText(s, w, h, x, y, t[..n], fg, bg), w, h, x + n, y, t[n], fg, bg);
      if InGrid(x + n, y, w, h) {
        IndexInRange(x + n, y, w, h);
      }
    }
  }

  /** Character `i` of `t` lands at (x+i, y) when that point is on the grid. */
  lemma {:induction false} PlotTextAt(s: seq<Cell>, w: nat, h: nat, x: int, y: int, t: seq<char>, fg: Color, bg: Color, i: int)
    requires |s| == w * h && 0 <= i < |t| && InGrid(x + i, y, w, h)
    ensures 0 <= Index(x + i, y, w) < |s|
    ensures PlotText(s, w, h, x, y, t, fg, bg)[Index(x + i, y, w)] == Stamp(s[Index(x + i, y, w)], t[i], fg, bg)
    decreases |t|
  {
    IndexInRange(x + i, y, w, h);
    var n := |t| - 1;
    var prev := PlotText(s, w, h, x, y, t[..n], fg, bg);
    PlotSpec(prev, w, h, x + n, y, t[n], fg, bg);
    if i < n {
      PlotTextAt(s, w, h, x, y, t[..n], fg, bg, i);
      if InGrid(x + n, y, w, h) {
        IndexInRange(x + n, y, w, h);
      }
    } else {
      PlotTextOutside(s, w, h, x, y, t[..n], fg, bg, Index(x + n, y, w));
    }
  }

  /**
   * Text is written left to right along row `y`: character `c - x` lands
   * in column `c` when (c, y) is on the grid, every write is clipped on its
   * own, and no cell outside row `y`, columns x..x+|t|-1 changes (there is
   * no wrapping onto the next row).
   */
  lemma PlotTextSpec(s: seq<Cell>, w: nat, h: nat, x: int, y: int, t: seq<char>, fg: Color, bg: Color)
    requires |s| == w * h
    ensures forall c :: x <= c < x + |t| && InGrid(c, y, w, h) ==>
      0 <= Index(c, y, w) < |s| &&
      PlotText(s, w, h, x, y, t, fg, bg)[Index(c, y, w)] == Stamp(s[Index(c, y, w)], t[c - x], fg, bg)
    ensures forall j :: 0 <= j < |s| && (j / w != y || j % w < x || x + |t| <= j % w) ==>
      PlotText(s, w, h, x, y, t, fg, bg)[j] == s[j]
  {
    forall c | x <= c < x + |t| && InGrid(c, y, w, h)
      ensures 0 <= Index(c, y, w) < |s|
      ensures PlotText(s, w, h, x, y, t, fg, bg)[Index(c, y, w)] == Stamp(s[Index(c, y, w)], t[c - x], fg, bg)
    {
      PlotTextAt(s, w, h, x, y, t, fg, bg, c - x);
    }
    forall j | 0 <= j < |s| && (j / w != y || j % w < x || x + |t| <= j % w)
      ensures PlotText(s, w, h, x, y, t, fg, bg)[j] == s[j]
    {
      PlotTextOutside(s, w, h, x, y, t, fg, bg, j);
    }
  }

  /**
   * Plotting the same character and colours at a list of points stamps
   * exactly the covered cells: off-grid points are skipped, repeated
   * points are harmless, and every other cell is unchanged.
   */
  lemma {:induction false} PlotPointsSpec(s: seq<Cell>, w: nat, h: nat, ps: seq<(int, int)>, ch: char, fg: Color, bg: Color)
    requires |s| == w * h
    ensures forall j :: 0 <= j < |s| ==>
      PlotPoints(s, w, h, ps, ch, fg, bg)[j] == if j in Covered(ps, w, h) then Stamp(s[j], ch, fg, bg) else s[j]
    decreases |ps|
  {
    if |ps| > 0 {
      var s' := Plot(s, w, h, ps[0].0, ps[0].1, ch, fg, bg);
      PlotSpec(s, w, h, ps[0].0, ps[0].1, ch, fg, bg);
      PlotPointsSpec(s', w, h, ps[1..], ch, fg, bg);
      var here := if InGrid(ps[0].0, ps[0].1, w, h) then {Index(ps[0].0, ps[0].1, w)} else {};
      assert Covered(ps, w, h) == here + Covered(ps[1..], w, h) by {
        forall j | j in Covered(ps, w, h) ensures j in here + Covered(ps[1..], w, h) {
          var k :| 0 <= k < |ps| && InGrid(ps[k].0, ps[k].1, w, h) && j == Index(ps[k].0, ps[k].1, w);
          if k > 0 {
            assert ps[1..][k - 1] == ps[k];
          }
        }
        forall j | j in Covered(ps[1..], w, h) ensures j in Covered(ps, w, h) {
          var k :| 0 <= k < |ps[1..]| && InGrid(ps[1..][k].0, ps[1..][k].1, w, h) && j == Index(ps[1..][k].0, ps[1..][k].1, w);
          assert ps[k + 1] == ps[1..][k];
        }
      }
    }
  }

  /** Plotting a walk's path is plotting its first point, then the rest of the path. */
  lemma PlotPathHead(cells: seq<Cell>, w: nat, h: nat, s: Line.Seg, walk: Line.Walk, ch: char, c: Color)
    requires |cells| == w * h && Line.Inv(s, walk)
    ensures var first := Plot(cells, w, h, walk.x, walk.y, ch, c, Black);
      && (Line.AtTarget(s, walk) ==> PlotPoints(cells, w, h, Line.Path(s, walk), ch, c, Black) == first)
      && (!Line.AtTarget(s, walk) ==>
            Line.Inv(s, Line.Next(s, walk)) &&
            Line.RemX(s, Line.Next(s, walk)) + Line.RemY(s, Line.Next(s, walk)) < Line.RemX(s, walk) + Line.RemY(s, walk) &&
            PlotPoints(cells, w, h, Line.Path(s, walk), ch, c, Black)
              == PlotPoints(first, w, h, Line.Path(s, Line.Next(s, walk)), ch, c, Black))
  {
    if !Line.AtTarget(s, walk) {
      Line.StepOk(s, walk);
      var p := Line.Path(s, walk);
      assert p == [(walk.x, walk.y)] + Line.Path(s, Line.Next(s, walk));
      assert p[1..] == Line.Path(s, Line.Next(s, walk));
    }
  }

  /**
   * A line stamps both of its endpoints when they are on the grid, always
   * with a black background, and changes only cells its points cover.
   */
  lemma LineStampsEndpoints(s: seq<Cell>, w: nat, h: nat, x0: int, y0: int, x1: int, y1: int, ch: char, c: Color)
    requires |s| == w * h
    ensures InGrid(x0, y0, w, h) ==>
      0 <= Index(x0, y0, w) < |s| &&
      PlotPoints(s, w, h, Line.Points(x0, y0, x1, y1), ch, c, Black)[Index(x0, y0, w)] == Stamp(s[Index(x0, y0, w)], ch, c, Black)
    ensures InGrid(x1, y1, w, h) ==>
      0 <= Index(x1, y1, w) < |s| &&
      PlotPoints(s, w, h, Line.Points(x0, y0, x1, y1), ch, c, Black)[Index(x1, y1, w)] == Stamp(s[Index(x1, y1, w)], ch, c, Black)
    ensures forall j :: 0 <= j < |s| && j !in Covered(Line.Points(x0, y0, x1, y1), w, h) ==>
      PlotPoints(s, w, h, Line.Points(x0, y0, x1, y1), ch, c, Black)[j] == s[j]
  {
    var ps := Line.Points(x0, y0, x1, y1);
    Line.PointsSpec(x0, y0, x1, y1);
    PlotPointsSpec(s, w, h, ps, ch, c, Black);
    if InGrid(x0, y0, w, h) {
      IndexInRange(x0, y0, w, h);
      assert Index(x0, y0, w) in Covered(ps, w, h) by {
        assert ps[0] == (x0, y0);
      }
    }
    if InGrid(x1, y1, w, h) {
      IndexInRange(x1, y1, w, h);
      assert Index(x1, y1, w) in Covered(ps, w, h) by {
        assert ps[|ps| - 1] == (x1, y1);
      }
    }
  }

  /** A cleared grid holds only blank spaces, white on black, and clearing again changes nothing. */
  lemma ClearedSpec(s: seq<Cell>)
    ensures forall i :: 0 <= i < |s| ==>
      Cleared(s)[i].ch == ' ' && Cleared(s)[i].fg == White && Cleared(s)[i].bg == Black
      && Cleared(s)[i].dirty == s[i].dirty
    ensures Cleared(Cleared(s)) == Cleared(s)
  {
  }

  /** A C string stops at the first NUL: it is the prefix before it. */
  lemma {:induction false} CStringIsPrefix(text: seq<char>, i: nat)
    requires i < |text| && text[i] == '\0' && '\0' !in text[..i]
    ensures CString(text) == text[..i]
  {
    if i > 0 {
      assert text[0] in text[..i];
      assert text[1..][..i - 1] == text[1..i];
      CStringIsPrefix(text[1..], i - 1);
    }
  }

  /**
   * The first flush after `init_buffer` is not guaranteed to redraw every
   * cell, although the comment at buffer.c:26 says the dirty marks force a
   * full redraw: the previous grid gets spaces, but its colours are
   * whatever the allocator returned, and `buffer_flush` never reads
   * `dirty`. A space whose colours happen to match is skipped.
   */
  lemma FirstFlushMaySkipCell(cur: seq<Cell>, junk: int -> Cell, w: nat, i: nat)
    requires w > 0 && i < |cur|
    requires cur[i].ch == ' ' && junk(i).fg == cur[i].fg && junk(i).bg == cur[i].bg
    ensures MoveTo(i / w + 1, i % w + 1) !in FlushTokens(cur, InitialPrev(junk, |cur|), w)
  {
    FlushAddressesChangedCells(cur, InitialPrev(junk, |cur|), w, i);
  }

  /**
   * The corrected flush keeps that promise: after `init_buffer` (or
   * `resize_buffer`) every cell of the previous grid is marked dirty, so the
   * next corrected flush moves the cursor to every one of the cells,
   * whatever the current grid holds.
   */
  lemma FixedFirstFlushRedrawsAll(cur: seq<Cell>, junk: int -> Cell, w: nat)
    requires w > 0 || |cur| == 0
    ensures forall i :: 0 <= i < |cur| ==> MoveTo(i / w + 1, i % w + 1) in FixedFlushTokens(cur, InitialPrev(junk, |cur|), w)
  {
    forall i | 0 <= i < |cur| ensures MoveTo(i / w + 1, i % w + 1) in FixedFlushTokens(cur, InitialPrev(junk, |cur|), w) {
      FixedFlushAddresses(cur, InitialPrev(junk, |cur|), w, i);
    }
  }

  // ---------------------------------------------------------------------
  // One screen buffer
  // ---------------------------------------------------------------------

  /** A `ScreenBuffer`: its dimensions and its row-major cells. */
  class Grid {
    var width: int
    var height: int
    var cells: array<Cell>

    predicate Valid()
      reads this
    {
      width >= 0 && height >= 0 && cells.Length == width * height
    }

    /** The zero-initialised static buffer. */
    constructor ()
      ensures Valid() && width == 0 && height == 0
    {
      width, height := 0, 0;
      cells := new Cell[0];
    }

    /** `buffer_set_char`: a clipped write of one cell. */
    method SetChar(x: int, y: int, ch: char, fg: Color, bg: Color)
      requires Valid()
      modifies cells
      ensures cells[..] == Plot(old(cells[..]), width, height, x, y, ch, fg, bg)
    {
      if x >= 0 && x < width && y >= 0 && y < height {
        IndexInRange(x, y, width, height);
        var index := y * width + x;
        cells[index] := cells[index].(ch := ch, fg := fg, bg := bg);
      }
    }
  }

  // ---------------------------------------------------------------------
  // The current and previous buffers
  // ---------------------------------------------------------------------

  /**
   * The two static buffers of buffer.c. `live` records whether the last
   * `init_buffer` allocated both grids; every drawing operation needs it.
   */
  class Screen {
    const cur: Grid
    const prev: Grid
    var live: bool

    /** Both grids allocated, the same size, and distinct. */
    predicate Ready()
      reads this, cur, prev
    {
      && live
      && cur != prev
      && cur.Valid() && prev.Valid()
      && cur.width == prev.width && cur.height == prev.height
      && cur.cells != prev.cells
    }

    constructor ()
      ensures !live && cur != prev
      ensures fresh(cur) && fresh(prev)
    {
      cur := new Grid();
      prev := new Grid();
      live := false;
    }

    /**
     * `init_buffer(w, h)`. Whether each `malloc` succeeds is an oracle, as
     * are the bytes it returns (`junkCur`, `junkPrev`, by index). The
     * previous grid gets spaces and `dirty = 1`; its colours stay as
     * allocated.
     */
    method Init(w: nat, h: nat, curOk: bool, prevOk: bool, junkCur: int -> Cell, junkPrev: int -> Cell)
      returns (ok: bool)
      requires cur != prev
      modifies this, cur, prev
      ensures ok == (curOk && prevOk) && live == ok
      ensures cur.width == w && cur.height == h
      ensures curOk ==> prev.width == w && prev.height == h
      ensures ok ==> Ready() && fresh(cur.cells) && fresh(prev.cells)
      ensures ok ==> cur.cells[..] == seq(w * h, i => junkCur(i))
      ensures ok ==> prev.cells[..] == InitialPrev(junkPrev, w * h)
    {
      cur.width, cur.height := w, h;
      if !curOk {
        cur.cells := new Cell[0];
        live := false;
        return false;
      }
      cur.cells := new Cell[w * h](i => junkCur(i));
      prev.width, prev.height := w, h;
      if !prevOk {
        prev.cells := new Cell[0];
        live := false;
        return false;
      }
      prev.cells := AllocatePrev(w * h, junkPrev);
      live := true;
      return true;
    }

    /** The allocation of the previous grid and the loop that puts a space with `dirty = 1` in every cell. */
    static method AllocatePrev(n: nat, junk: int -> Cell) returns (cells: array<Cell>)
      ensures fresh(cells) && cells[..] == InitialPrev(junk, n)
    {
      cells := new Cell[n](j => junk(j));
      var i := 0;
      while i < n
        invariant 0 <= i <= n && cells.Length == n
        invariant forall j :: 0 <= j < i ==> cells[j] == junk(j).(ch := ' ', dirty := 1)
        invariant forall j :: i <= j < n ==> cells[j] == junk(j)
      {
        cells[i] := cells[i].(ch := ' ', dirty := 1);
        i := i + 1;
      }
    }

    /** `destroy_buffer`: both grids are released. */
    method Destroy()
      modifies this
      ensures !live
    {
      live := false;
    }

    /** `resize_buffer`: destroy, then init at the new size; the result of init is dropped. */
    method Resize(w: nat, h: nat, curOk: bool, prevOk: bool, junkCur: int -> Cell, junkPrev: int -> Cell)
      requires cur != prev
      modifies this, cur, prev
      ensures live == (curOk && prevOk)
      ensures cur.width == w && cur.height == h
      ensures live ==> Ready() && fresh(cur.cells) && fresh(prev.cells)
      ensures live ==> cur.cells[..] == seq(w * h, i => junkCur(i))
      ensures live ==> prev.cells[..] == InitialPrev(junkPrev, w * h)
    {
      Destroy();
      var _ := Init(w, h, curOk, prevOk, junkCur, junkPrev);
    }

    /** `buffer_clear`: every current cell becomes a blank; the previous grid is untouched. */
    method Clear()
      requires Ready()
      modifies cur.cells
      ensures Ready()
      ensures cur.cells[..] == Cleared(old(cur.cells[..]))
      ensures prev.cells[..] == old(prev.cells[..])
    {
      var n := cur.width * cur.height;
      var i := 0;
      while i < n
        invariant 0 <= i <= n
        invariant forall j :: 0 <= j < i ==> cur.cells[j] == Blank(old(cur.cells[j]))
        invariant forall j :: i <= j < n ==> cur.cells[j] == old(cur.cells[j])
      {
        cur.cells[i] := cur.cells[i].(ch := ' ', fg := White, bg := Black);
        i := i + 1;
      }
    }

    /** `buffer_draw_char`: a clipped write into the current grid. */
    method DrawChar(x: int, y: int, ch: char, fg: Color, bg: Color)
      requires Ready()
      modifies cur.cells
      ensures Ready()
      ensures cur.cells[..] == Plot(old(cur.cells[..]), cur.width, cur.height, x, y, ch, fg, bg)
      ensures prev.cells[..] == old(prev.cells[..])
    {
      cur.SetChar(x, y, ch, fg, bg);
    }

    /** `buffer_draw_text`: the characters before the NUL, one clipped write each. */
    method DrawText(x: int, y: int, text: seq<char>, fg: Color, bg: Color)
      requires Ready() && '\0' in text
      modifies cur.cells
      ensures Ready()
      ensures cur.cells[..] == PlotText(old(cur.cells[..]), cur.width, cur.height, x, y, CString(text), fg, bg)
      ensures prev.cells[..] == old(prev.cells[..])
    {
      var i := 0;
      while text[i] != '\0'
        invariant 0 <= i < |text| && '\0' in text[i..] && '\0' !in text[..i]
        invariant cur.cells[..] == PlotText(old(cur.cells[..]), cur.width, cur.height, x, y, text[..i], fg, bg)
        invariant prev.cells[..] == old(prev.cells[..])
        decreases |text| - i
      {
        DrawChar(x + i, y, text[i], fg, bg);
        assert text[..i + 1][..i] == text[..i];
        i := i + 1;
      }
      CStringIsPrefix(text, i);
    }

    /** `buffer_draw_line`: Bresenham's loop, plotting `ch` in `c` on black at each point. */
    method DrawLine(x0: int, y0: int, x1: int, y1: int, ch: char, c: Color)
      requires Ready()
      modifies cur.cells
      ensures Ready()
      ensures cur.cells[..] == PlotPoints(old(cur.cells[..]), cur.width, cur.height, Line.Points(x0, y0, x1, y1), ch, c, Black)
      ensures prev.cells[..] == old(prev.cells[..])
    {
      var s := Line.Setup(x0, y0, x1, y1);
      var err := s.dx + s.dy;
      ghost var goal := PlotPoints(old(cur.cells[..]), cur.width, cur.height, Line.Points(x0, y0, x1, y1), ch, c, Black);
      Line.StartOk(x0, y0, x1, y1);
      var x, y := x0, y0;
      while true
        invariant Ready() && prev.cells[..] == old(prev.cells[..])
        invariant Line.Inv(s, Line.Walk(x, y, err))
        invariant PlotPoints(cur.cells[..], cur.width, cur.height, Line.Path(s, Line.Walk(x, y, err)), ch, c, Black) == goal
        decreases Line.RemX(s, Line.Walk(x, y, err)) + Line.RemY(s, Line.Walk(x, y, err))
      {
        PlotPathHead(cur.cells[..], cur.width, cur.height, s, Line.Walk(x, y, err), ch, c);
        DrawChar(x, y, ch, c, Black);
        if x == x1 && y == y1 {
          break;
        }
        x, y, err := Line.Advance(s, x, y, err);
      }
    }

    /**
     * The escapes and the character that redraw the cell at (x, y), given
     * the colours last emitted (`None` when none has been yet).
     */
    static method CellOut(x: int, y: int, w: nat, h: nat, c: Cell, lastFg: Option<Color>, lastBg: Option<Color>) returns (ts: seq<Token>)
      requires InGrid(x, y, w, h)
      ensures ts == CellTokens(Index(x, y, w), w, c, lastFg, lastBg)
    {
      IndexInRange(x, y, w, h);
      ts := [MoveTo(y + 1, x + 1)];
      if Some(c.fg) != lastFg {
        ts := ts + [SetFg(c.fg)];
      }
      if Some(c.bg) != lastBg {
        ts := ts + [SetBg(c.bg)];
      }
      ts := ts + [Put(c.ch)];
    }

    /**
     * The inner loop of `buffer_flush` over row `y`: the tokens for the
     * redrawn cells of that row, and the colours last emitted after them.
     * `marks` selects the redraw test: false for the source's, true for
     * the corrected one that also redraws a cell marked dirty.
     */
    method RowChanges(y: int, marks: bool, lastFg: Option<Color>, lastBg: Option<Color>) returns (ts: seq<Token>, fg: Option<Color>, bg: Option<Color>)
      requires Ready() && 0 <= y < cur.height
      ensures (y + 1) * cur.width <= cur.width * cur.height
      ensures ts + DiffFrom(cur.cells[..], prev.cells[..], cur.width, marks, (y + 1) * cur.width, fg, bg)
        == DiffFrom(cur.cells[..], prev.cells[..], cur.width, marks, y * cur.width, lastFg, lastBg)
    {
      var w, h := cur.width, cur.height;
      ghost var now, before := cur.cells[..], prev.cells[..];
      MulAtMost(y + 1, h, w);
      ghost var row := DiffFrom(now, before, w, marks, y * w, lastFg, lastBg);
      ts, fg, bg := [], lastFg, lastBg;
      var x := 0;
      while x < w
        invariant 0 <= x <= w
        invariant y * w + x <= w * h
        invariant ts + DiffFrom(now, before, w, marks, y * w + x, fg, bg) == row
      {
        IndexInRange(x, y, w, h);
        var k := y * w + x;
        var c, p := cur.cells[k], prev.cells[k];
        if c.ch != p.ch || c.fg != p.fg || c.bg != p.bg || (marks && p.dirty == 1) {
          var cell := CellOut(x, y, w, h, c, fg, bg);
          Assoc(ts, cell, DiffFrom(now, before, w, marks, k + 1, Some(c.fg), Some(c.bg)));
          ts := ts + cell;
          fg, bg := Some(c.fg), Some(c.bg);
        }
        x := x + 1;
      }
      assert y * w + w == (y + 1) * w;
    }

    /**
     * The row loop of `buffer_flush`: the tokens for every redrawn cell, in
     * row-major order, with the running colours starting at `start`.
     */
    method Changes(marks: bool, start: Option<Color>) returns (out: seq<Token>)
      requires Ready()
      ensures out == DiffFrom(cur.cells[..], prev.cells[..], cur.width, marks, 0, start, start)
    {
      var w, h := cur.width, cur.height;
      ghost var now, before := cur.cells[..], prev.cells[..];
      ghost var all := DiffFrom(now, before, w, marks, 0, start, start);
      assert |now| == w * h;
      out := [];
      var lastFg, lastBg := start, start;
      var y := 0;
      ghost var k := 0;
      while y < h
        invariant 0 <= y <= h && k == y * w && k <= |now|
        invariant out + DiffFrom(now, before, w, marks, k, lastFg, lastBg) == all
      {
        var ts, fg, bg := RowChanges(y, marks, lastFg, lastBg);
        Line.MulStep(w, y + 1);
        ghost var rest := DiffFrom(now, before, w, marks, k + w, fg, bg);
        Assoc(out, ts, rest);
        out := out + ts;
        lastFg, lastBg := fg, bg;
        y, k := y + 1, k + w;
      }
      assert k == |now|;
      assert out + [] == out;
    }

    /** The `memcpy` at the end of `buffer_flush`: the previous grid becomes a copy of the current one. */
    method Commit()
      requires Ready()
      modifies prev.cells
      ensures Ready()
      ensures cur.cells[..] == old(cur.cells[..])
      ensures prev.cells[..] == cur.cells[..]
    {
      forall i | 0 <= i < prev.cells.Length {
        prev.cells[i] := cur.cells[i];
      }
    }

    /**
     * `buffer_flush`: the tokens for every changed cell in row-major order,
     * framed by hiding the cursor and resetting the attributes; afterwards
     * the previous grid is a copy of the current one. The running colours
     * start as the source's `{-1, -1, -1}`, which is white in `unsigned char`.
     */
    method Flush() returns (out: seq<Token>)
      requires Ready()
      modifies prev.cells
      ensures Ready()
      ensures out == FlushTokens(old(cur.cells[..]), old(prev.cells[..]), cur.width)
      ensures cur.cells[..] == old(cur.cells[..])
      ensures prev.cells[..] == cur.cells[..]
    {
      var changes := Changes(false, Some(White));
      out := [HideCursor] + changes + [ResetAttrs];
      Commit();
    }

    /** The corrected commit: the previous grid becomes the current one with its dirty marks cleared. */
    method FixedCommitCells()
      requires Ready()
      modifies prev.cells
      ensures Ready()
      ensures cur.cells[..] == old(cur.cells[..])
      ensures prev.cells[..] == FixedCommit(cur.cells[..])
    {
      forall i | 0 <= i < prev.cells.Length {
        prev.cells[i] := cur.cells[i].(dirty := 0);
      }
    }

    /**
     * The corrected flush: no colour counts as emitted at the start, cells
     * marked dirty are redrawn, and the commit clears the marks.
     */
    method FixedFlush() returns (out: seq<Token>)
      requires Ready()
      modifies prev.cells
      ensures Ready()
      ensures out == FixedFlushTokens(old(cur.cells[..]), old(prev.cells[..]), cur.width)
      ensures cur.cells[..] == old(cur.cells[..])
      ensures prev.cells[..] == FixedCommit(cur.cells[..])
    {
      var changes := Changes(true, None);
      out := [HideCursor] + changes + [ResetAttrs];
      FixedCommitCells();
    }
  }
}
