/**
 * The diff renderer of buffer.c as a specification: which tokens a flush
 * writes for a current grid against the previous one, and what a terminal
 * that obeys those tokens ends up showing.
 */
module Diff {
  import opened Cells

  /** The 1-based (row, column) of the cell at flat row-major index `i`. */
  function Pos(i: nat, w: nat): (p: (int, int))
    requires w > 0
    ensures 1 <= p.0 && 1 <= p.1 <= w
  {
    (i / w + 1, i % w + 1)
  }

  lemma PosInjective(i: nat, j: nat, w: nat)
    requires w > 0 && i != j
    ensures Pos(i, w) != Pos(j, w)
  {
    assert i == (i / w) * w + i % w;
    assert j == (j / w) * w + j % w;
  }

  /** Two grids a flush can compare: same length, and a width unless empty. */
  predicate Shape(cur: seq<Cell>, prev: seq<Cell>, w: nat) {
    |cur| == |prev| && (w == 0 ==> |cur| == 0)
  }

  /** A cell differs from the previous frame when its character or either colour does. */
  predicate Changed(now: Cell, before: Cell) {
    now.ch != before.ch || now.fg != before.fg || now.bg != before.bg
  }

  /**
   * The redraw test of a flush. As written (`marks` false) it is `Changed`
   * and never looks at `dirty`; the corrected flush (`marks` true) also
   * redraws a cell that the previous grid marks dirty, which is what the
   * comment on `init_buffer`'s loop (buffer.c:26) intends.
   */
  predicate Redraw(now: Cell, before: Cell, marks: bool) {
    Changed(now, before) || (marks && before.dirty == 1)
  }

  /**
   * The tokens for one redrawn cell, given the colours last emitted
   * (`None` when the renderer has emitted none yet): a colour escape is
   * written only when the cell's colour is not the one last emitted.
   */
  function CellTokens(i: nat, w: nat, c: Cell, lastFg: Option<Color>, lastBg: Option<Color>): seq<Token>
    requires w > 0
  {
    [MoveTo(Pos(i, w).0, Pos(i, w).1)]
    + (if lastFg != Some(c.fg) then [SetFg(c.fg)] else [])
    + (if lastBg != Some(c.bg) then [SetBg(c.bg)] else [])
    + [Put(c.ch)]
  }

  /** The tokens for cells `k..` in row-major order, carrying the last emitted colours. */
  function DiffFrom(cur: seq<Cell>, prev: seq<Cell>, w: nat, marks: bool, k: nat, lastFg: Option<Color>, lastBg: Option<Color>): seq<Token>
    requires Shape(cur, prev, w) && k <= |cur|
    decreases |cur| - k
  {
    if k == |cur| then []
    else if Redraw(cur[k], prev[k], marks) then
      CellTokens(k, w, cur[k], lastFg, lastBg) + DiffFrom(cur, prev, w, marks, k + 1, Some(cur[k].fg), Some(cur[k].bg))
    else
      DiffFrom(cur, prev, w, marks, k + 1, lastFg, lastBg)
  }

  /**
   * Everything one `buffer_flush` writes. The running colours start as
   * 255,255,255: the source initialises them with -1, which wraps in
   * `unsigned char`, so white counts as already emitted.
   */
  function FlushTokens(cur: seq<Cell>, prev: seq<Cell>, w: nat): seq<Token>
    requires Shape(cur, prev, w)
  {
    [HideCursor] + DiffFrom(cur, prev, w, false, 0, Some(White), Some(White)) + [ResetAttrs]
  }

  /**
   * The corrected flush: no colour counts as emitted at the start, and a
   * cell marked dirty in the previous grid is redrawn.
   */
  function FixedFlushTokens(cur: seq<Cell>, prev: seq<Cell>, w: nat): seq<Token>
    requires Shape(cur, prev, w)
  {
    [HideCursor] + DiffFrom(cur, prev, w, true, 0, None, None) + [ResetAttrs]
  }

  /**
   * The commit that goes with the corrected flush: the previous grid
   * becomes the current one with its dirty marks cleared, so that a mark
   * forces one redraw and no more.
   */
  function FixedCommit(cur: seq<Cell>): (r: seq<Cell>)
    ensures |r| == |cur|
  {
    seq(|cur|, i requires 0 <= i < |cur| => cur[i].(dirty := 0))
  }

  // ---------------------------------------------------------------------
  // Which cells are redrawn
  // ---------------------------------------------------------------------

  lemma {:induction false} NoMoveBefore(cur: seq<Cell>, prev: seq<Cell>, w: nat, marks: bool, k: nat, lastFg: Option<Color>, lastBg: Option<Color>, i: nat)
    requires Shape(cur, prev, w) && i < k <= |cur|
    ensures MoveTo(Pos(i, w).0, Pos(i, w).1) !in DiffFrom(cur, prev, w, marks, k, lastFg, lastBg)
    decreases |cur| - k
  {
    if k < |cur| {
      PosInjective(i, k, w);
      if Redraw(cur[k], prev[k], marks) {
        NoMoveBefore(cur, prev, w, marks, k + 1, Some(cur[k].fg), Some(cur[k].bg), i);
      } else {
        NoMoveBefore(cur, prev, w, marks, k + 1, lastFg, lastBg, i);
      }
    }
  }

  /** A flush moves the cursor to a cell's position exactly when its redraw test holds for that cell. */
  lemma {:induction false} MoveIffChanged(cur: seq<Cell>, prev: seq<Cell>, w: nat, marks: bool, k: nat, lastFg: Option<Color>, lastBg: Option<Color>, i: nat)
    requires Shape(cur, prev, w) && k <= i < |cur|
    ensures MoveTo(Pos(i, w).0, Pos(i, w).1) in DiffFrom(cur, prev, w, marks, k, lastFg, lastBg)
            <==> Redraw(cur[i], prev[i], marks)
    decreases |cur| - k
  {
    var m := MoveTo(Pos(i, w).0, Pos(i, w).1);
    if k == i {
      if Redraw(cur[k], prev[k], marks) {
        assert DiffFrom(cur, prev, w, marks, k, lastFg, lastBg)[0] == m;
      } else {
        NoMoveBefore(cur, prev, w, marks, k + 1, lastFg, lastBg, i);
      }
    } else {
      PosInjective(i, k, w);
      if Redraw(cur[k], prev[k], marks) {
        MoveIffChanged(cur, prev, w, marks, k + 1, Some(cur[k].fg), Some(cur[k].bg), i);
      } else {
        MoveIffChanged(cur, prev, w, marks, k + 1, lastFg, lastBg, i);
      }
    }
  }

  /** The whole flush: a cell at (row, column) is addressed iff it differs from the previous frame. */
  lemma FlushAddressesChangedCells(cur: seq<Cell>, prev: seq<Cell>, w: nat, i: nat)
    requires Shape(cur, prev, w) && i < |cur|
    ensures MoveTo(i / w + 1, i % w + 1) in FlushTokens(cur, prev, w) <==> Changed(cur[i], prev[i])
  {
    MoveIffChanged(cur, prev, w, false, 0, Some(White), Some(White), i);
    var m := MoveTo(i / w + 1, i % w + 1);
    var d := DiffFrom(cur, prev, w, false, 0, Some(White), Some(White));
    assert m in FlushTokens(cur, prev, w) <==> m in d by {
      assert FlushTokens(cur, prev, w) == [HideCursor] + d + [ResetAttrs];
    }
  }

  /** The corrected flush addresses a cell iff it changed or the previous grid marks it dirty. */
  lemma FixedFlushAddresses(cur: seq<Cell>, prev: seq<Cell>, w: nat, i: nat)
    requires Shape(cur, prev, w) && i < |cur|
    ensures MoveTo(i / w + 1, i % w + 1) in FixedFlushTokens(cur, prev, w)
            <==> Changed(cur[i], prev[i]) || prev[i].dirty == 1
  {
    MoveIffChanged(cur, prev, w, true, 0, None, None, i);
    var m := MoveTo(i / w + 1, i % w + 1);
    var d := DiffFrom(cur, prev, w, true, 0, None, None);
    assert m in FixedFlushTokens(cur, prev, w) <==> m in d by {
      assert FixedFlushTokens(cur, prev, w) == [HideCursor] + d + [ResetAttrs];
    }
  }

  lemma {:induction false} UnchangedNoTokens(cur: seq<Cell>, prev: seq<Cell>, w: nat, marks: bool, k: nat, lastFg: Option<Color>, lastBg: Option<Color>)
    requires Shape(cur, prev, w) && k <= |cur|
    requires forall i :: k <= i < |cur| ==> !Redraw(cur[i], prev[i], marks)
    ensures DiffFrom(cur, prev, w, marks, k, lastFg, lastBg) == []
    decreases |cur| - k
  {
    if k < |cur| {
      UnchangedNoTokens(cur, prev, w, marks, k + 1, lastFg, lastBg);
    }
  }

  /**
   * Once the previous frame equals the current one (as after the commit
   * at the end of a flush), a flush writes no cell at all: only the
   * cursor-hide and attribute-reset controls.
   */
  lemma SecondFlushIsQuiet(cur: seq<Cell>, w: nat)
    requires Shape(cur, cur, w)
    ensures FlushTokens(cur, cur, w) == [HideCursor, ResetAttrs]
  {
    UnchangedNoTokens(cur, cur, w, false, 0, Some(White), Some(White));
  }

  /** The same holds for the corrected flush after the corrected commit: a dirty mark forces one redraw only. */
  lemma FixedSecondFlushIsQuiet(cur: seq<Cell>, w: nat)
    requires Shape(cur, cur, w)
    ensures FixedFlushTokens(cur, FixedCommit(cur), w) == [HideCursor, ResetAttrs]
  {
    UnchangedNoTokens(cur, FixedCommit(cur), w, true, 0, None, None);
  }

  // ---------------------------------------------------------------------
  // Colour-escape coalescing
  // ---------------------------------------------------------------------

  /** No colour escape repeats the colour that was last emitted for its plane. */
  predicate Coalesced(ts: seq<Token>, lastFg: Option<Color>, lastBg: Option<Color>)
    decreases |ts|
  {
    if ts == [] then true
    else match ts[0]
      case SetFg(c) => Some(c) != lastFg && Coalesced(ts[1..], Some(c), lastBg)
      case SetBg(c) => Some(c) != lastBg && Coalesced(ts[1..], lastFg, Some(c))
      case _ => Coalesced(ts[1..], lastFg, lastBg)
  }

  lemma CellTokensCoalesced(i: nat, w: nat, c: Cell, lastFg: Option<Color>, lastBg: Option<Color>, rest: seq<Token>)
    requires w > 0
    requires Coalesced(rest, Some(c.fg), Some(c.bg))
    ensures Coalesced(CellTokens(i, w, c, lastFg, lastBg) + rest, lastFg, lastBg)
  {
    var mv := MoveTo(Pos(i, w).0, Pos(i, w).1);
    var fgs := if lastFg != Some(c.fg) then [SetFg(c.fg)] else [];
    var bgs := if lastBg != Some(c.bg) then [SetBg(c.bg)] else [];
    var tail := [Put(c.ch)] + rest;
    assert Coalesced(tail, Some(c.fg), Some(c.bg)) by { assert tail[1..] == rest; }
    assert Coalesced(bgs + tail, Some(c.fg), lastBg) by {
      if bgs != [] { assert (bgs + tail)[1..] == tail; } else { assert bgs + tail == tail; }
    }
    var body := fgs + (bgs + tail);
    assert Coalesced(body, lastFg, lastBg) by {
      if fgs != [] { assert body[1..] == bgs + tail; } else { assert body == bgs + tail; }
    }
    assert Coalesced([mv] + body, lastFg, lastBg) by { assert ([mv] + body)[1..] == body; }
    assert CellTokens(i, w, c, lastFg, lastBg) == [mv] + fgs + bgs + [Put(c.ch)];
    Assoc([mv] + fgs + bgs, [Put(c.ch)], rest);
    Assoc([mv] + fgs, bgs, tail);
    Assoc([mv], fgs, bgs + tail);
  }

  /** A flush never emits a colour escape that repeats the colour last emitted for its plane. */
  lemma {:induction false} DiffCoalesced(cur: seq<Cell>, prev: seq<Cell>, w: nat, marks: bool, k: nat, lastFg: Option<Color>, lastBg: Option<Color>)
    requires Shape(cur, prev, w) && k <= |cur|
    ensures Coalesced(DiffFrom(cur, prev, w, marks, k, lastFg, lastBg), lastFg, lastBg)
    decreases |cur| - k
  {
    if k < |cur| {
      if Redraw(cur[k], prev[k], marks) {
        DiffCoalesced(cur, prev, w, marks, k + 1, Some(cur[k].fg), Some(cur[k].bg));
        CellTokensCoalesced(k, w, cur[k], lastFg, lastBg, DiffFrom(cur, prev, w, marks, k + 1, Some(cur[k].fg), Some(cur[k].bg)));
      } else {
        DiffCoalesced(cur, prev, w, marks, k + 1, lastFg, lastBg);
      }
    }
  }

  /** A redrawn cell whose colours are the last emitted ones costs only a cursor move and its character. */
  lemma CellTokensNoEscape(i: nat, w: nat, c: Cell, lastFg: Option<Color>, lastBg: Option<Color>)
    requires w > 0 && lastFg == Some(c.fg) && lastBg == Some(c.bg)
    ensures CellTokens(i, w, c, lastFg, lastBg) == [MoveTo(Pos(i, w).0, Pos(i, w).1), Put(c.ch)]
  {
  }

  // ---------------------------------------------------------------------
  // What the terminal shows
  // ---------------------------------------------------------------------

  /** A terminal colour: its default, or an explicit 24-bit colour. */
  datatype Pen = Default | Rgb(c: Color)

  datatype Glyph = Glyph(ch: char, fg: Pen, bg: Pen)

  /** A terminal obeying the tokens: what it shows, its cursor and its current colours. */
  datatype Display = Display(screen: map<(int, int), Glyph>, row: int, col: int, fg: Pen, bg: Pen, cursorShown: bool)

  function Apply(d: Display, t: Token): Display {
    match t
    case HideCursor => d.(cursorShown := false)
    case MoveTo(r, c) => d.(row := r, col := c)
    case SetFg(c) => d.(fg := Rgb(c))
    case SetBg(c) => d.(bg := Rgb(c))
    case Put(ch) => d.(screen := d.screen[(d.row, d.col) := Glyph(ch, d.fg, d.bg)], col := d.col + 1)
    case ResetAttrs => d.(fg := Default, bg := Default)
  }

  function Play(d: Display, ts: seq<Token>): Display
    decreases |ts|
  {
    if ts == [] then d else Play(Apply(d, ts[0]), ts[1..])
  }

  lemma {:induction false} PlayAppend(d: Display, a: seq<Token>, b: seq<Token>)
    ensures Play(d, a + b) == Play(Play(d, a), b)
    decreases |a|
  {
    if a == [] {
      assert a + b == b;
    } else {
      assert (a + b)[1..] == a[1..] + b;
      PlayAppend(Apply(d, a[0]), a[1..], b);
    }
  }

  /** The pen a terminal holds after a colour escape is written only when `c` is not the one last emitted. */
  function PenAfter(p: Pen, last: Option<Color>, c: Color): Pen {
    if last == Some(c) then p else Rgb(c)
  }

  /**
   * One redrawn cell, played from any terminal state: its character lands
   * at its position, in the pen each plane holds once the cell's escapes
   * (if any) are written, and the terminal keeps those pens.
   */
  lemma CellTokensPaint(d: Display, i: nat, w: nat, c: Cell, lastFg: Option<Color>, lastBg: Option<Color>)
    requires w > 0
    ensures Play(d, CellTokens(i, w, c, lastFg, lastBg)).screen
         == d.screen[Pos(i, w) := Glyph(c.ch, PenAfter(d.fg, lastFg, c.fg), PenAfter(d.bg, lastBg, c.bg))]
    ensures Play(d, CellTokens(i, w, c, lastFg, lastBg)).fg == PenAfter(d.fg, lastFg, c.fg)
    ensures Play(d, CellTokens(i, w, c, lastFg, lastBg)).bg == PenAfter(d.bg, lastBg, c.bg)
  {
    var mv := [MoveTo(Pos(i, w).0, Pos(i, w).1)];
    var fgs := if lastFg != Some(c.fg) then [SetFg(c.fg)] else [];
    var bgs := if lastBg != Some(c.bg) then [SetBg(c.bg)] else [];
    var put := [Put(c.ch)];
    assert CellTokens(i, w, c, lastFg, lastBg) == mv + fgs + bgs + put;
    PlayAppend(d, mv + fgs + bgs, put);
    PlayAppend(d, mv + fgs, bgs);
    PlayAppend(d, mv, fgs);
    var d1 := Play(d, mv);
    assert d1 == Play(Apply(d, mv[0]), []);
    var d2 := Play(d1, fgs);
    assert d2.fg == PenAfter(d.fg, lastFg, c.fg) && d2.bg == d.bg && d2.screen == d.screen && (d2.row, d2.col) == Pos(i, w) by {
      if fgs != [] { assert d2 == Play(Apply(d1, fgs[0]), []); }
    }
    var d3 := Play(d2, bgs);
    assert d3.fg == PenAfter(d.fg, lastFg, c.fg) && d3.bg == PenAfter(d.bg, lastBg, c.bg) && d3.screen == d.screen && (d3.row, d3.col) == Pos(i, w) by {
      if bgs != [] { assert d3 == Play(Apply(d2, bgs[0]), []); }
    }
    assert Play(d3, put) == Play(Apply(d3, put[0]), []);
  }

  /** The screen after every redrawn cell from `k` on is painted with the glyph `gs` gives for it. */
  function Painted(s: map<(int, int), Glyph>, gs: seq<Glyph>, cur: seq<Cell>, prev: seq<Cell>, w: nat, marks: bool, k: nat): map<(int, int), Glyph>
    requires Shape(cur, prev, w) && |gs| == |cur| && k <= |cur|
    decreases |cur| - k
  {
    if k == |cur| then s
    else Painted(if Redraw(cur[k], prev[k], marks) then s[Pos(k, w) := gs[k]] else s, gs, cur, prev, w, marks, k + 1)
  }

  /** Some redrawn cell from `k` on sits at position `p`. */
  ghost predicate Touched(cur: seq<Cell>, prev: seq<Cell>, w: nat, marks: bool, k: nat, p: (int, int))
    requires Shape(cur, prev, w)
  {
    exists i :: k <= i < |cur| && Redraw(cur[i], prev[i], marks) && Pos(i, w) == p
  }

  /** What `Painted` leaves at each position: the redrawn cell's glyph there, the old one elsewhere. */
  lemma {:induction false} PaintedAt(s: map<(int, int), Glyph>, gs: seq<Glyph>, cur: seq<Cell>, prev: seq<Cell>, w: nat, marks: bool, k: nat)
    requires Shape(cur, prev, w) && |gs| == |cur| && k <= |cur|
    ensures forall i :: k <= i < |cur| && Redraw(cur[i], prev[i], marks) ==>
              Pos(i, w) in Painted(s, gs, cur, prev, w, marks, k) && Painted(s, gs, cur, prev, w, marks, k)[Pos(i, w)] == gs[i]
    ensures forall p :: p in Painted(s, gs, cur, prev, w, marks, k) <==> p in s || Touched(cur, prev, w, marks, k, p)
    ensures forall p :: p in s && !Touched(cur, prev, w, marks, k, p) ==> Painted(s, gs, cur, prev, w, marks, k)[p] == s[p]
    decreases |cur| - k
  {
    if k < |cur| {
      var s' := if Redraw(cur[k], prev[k], marks) then s[Pos(k, w) := gs[k]] else s;
      PaintedAt(s', gs, cur, prev, w, marks, k + 1);
      var r := Painted(s, gs, cur, prev, w, marks, k);
      assert r == Painted(s', gs, cur, prev, w, marks, k + 1);
      forall i | k <= i < |cur| && Redraw(cur[i], prev[i], marks)
        ensures Pos(i, w) in r && r[Pos(i, w)] == gs[i]
      {
        if i > k {
        } else {
          forall j | k + 1 <= j < |cur| ensures Pos(j, w) != Pos(k, w) { PosInjective(j, k, w); }
          assert !Touched(cur, prev, w, marks, k + 1, Pos(k, w));
        }
      }
      forall p ensures p in r <==> p in s || Touched(cur, prev, w, marks, k, p) {
        if Touched(cur, prev, w, marks, k, p) && !Touched(cur, prev, w, marks, k + 1, p) {
          var i :| k <= i < |cur| && Redraw(cur[i], prev[i], marks) && Pos(i, w) == p;
          assert i == k;
        }
        if Touched(cur, prev, w, marks, k + 1, p) {
          var i :| k + 1 <= i < |cur| && Redraw(cur[i], prev[i], marks) && Pos(i, w) == p;
          assert Touched(cur, prev, w, marks, k, p);
        }
      }
      forall p | p in s && !Touched(cur, prev, w, marks, k, p) ensures r[p] == s[p] {
        assert !Touched(cur, prev, w, marks, k + 1, p);
        if Redraw(cur[k], prev[k], marks) { assert Pos(k, w) != p; }
      }
    }
  }

  lemma PlayFrame(d: Display, body: seq<Token>)
    ensures Play(d, [HideCursor] + body + [ResetAttrs]).screen == Play(d.(cursorShown := false), body).screen
    ensures Play(d, [HideCursor] + body + [ResetAttrs]).fg == Default
    ensures Play(d, [HideCursor] + body + [ResetAttrs]).bg == Default
  {
    PlayAppend(d, [HideCursor] + body, [ResetAttrs]);
    PlayAppend(d, [HideCursor], body);
    assert Play(d, [HideCursor]) == Play(Apply(d, HideCursor), []);
    var d2 := Play(d, [HideCursor] + body);
    assert Play(d2, [ResetAttrs]) == Play(Apply(d2, ResetAttrs), []);
  }

  // What the corrected flush shows

  /** Each cell's own glyph: its character in its own two colours. */
  function Glyphs(cur: seq<Cell>): (gs: seq<Glyph>)
    ensures |gs| == |cur|
  {
    seq(|cur|, i requires 0 <= i < |cur| => Glyph(cur[i].ch, Rgb(cur[i].fg), Rgb(cur[i].bg)))
  }

  /** A terminal pen agrees with the renderer's belief: if a colour was emitted, the terminal holds it. */
  predicate Tracks(p: Pen, last: Option<Color>) {
    last.Some? ==> p == Rgb(last.value)
  }

  /**
   * Coalescing is sound while the renderer's belief holds: the tokens for
   * cells `k` on paint exactly the redrawn cells, each with its own
   * character and colours.
   */
  lemma {:induction false} DiffPaints(d: Display, cur: seq<Cell>, prev: seq<Cell>, w: nat, marks: bool, k: nat, lastFg: Option<Color>, lastBg: Option<Color>)
    requires Shape(cur, prev, w) && k <= |cur|
    requires Tracks(d.fg, lastFg) && Tracks(d.bg, lastBg)
    ensures Play(d, DiffFrom(cur, prev, w, marks, k, lastFg, lastBg)).screen == Painted(d.screen, Glyphs(cur), cur, prev, w, marks, k)
    decreases |cur| - k
  {
    if k < |cur| {
      if Redraw(cur[k], prev[k], marks) {
        var ct := CellTokens(k, w, cur[k], lastFg, lastBg);
        PlayAppend(d, ct, DiffFrom(cur, prev, w, marks, k + 1, Some(cur[k].fg), Some(cur[k].bg)));
        CellTokensPaint(d, k, w, cur[k], lastFg, lastBg);
        DiffPaints(Play(d, ct), cur, prev, w, marks, k + 1, Some(cur[k].fg), Some(cur[k].bg));
      } else {
        DiffPaints(d, cur, prev, w, marks, k + 1, lastFg, lastBg);
      }
    }
  }

  /** The corrected flush, played from any terminal state, paints with `Glyphs` and ends at the default colours. */
  lemma FixedFlushPainted(d: Display, cur: seq<Cell>, prev: seq<Cell>, w: nat)
    requires Shape(cur, prev, w)
    ensures Play(d, FixedFlushTokens(cur, prev, w)).screen == Painted(d.screen, Glyphs(cur), cur, prev, w, true, 0)
    ensures Play(d, FixedFlushTokens(cur, prev, w)).fg == Default
    ensures Play(d, FixedFlushTokens(cur, prev, w)).bg == Default
  {
    PlayFrame(d, DiffFrom(cur, prev, w, true, 0, None, None));
    DiffPaints(d.(cursorShown := false), cur, prev, w, true, 0, None, None);
  }

  /**
   * The corrected flush, played from any terminal state, paints every cell
   * that changed or is marked dirty with its own character and colours,
   * leaves every other position as it was, and ends at the default colours.
   */
  lemma FixedFlushPaints(d: Display, cur: seq<Cell>, prev: seq<Cell>, w: nat)
    requires Shape(cur, prev, w)
    ensures forall i :: 0 <= i < |cur| && Redraw(cur[i], prev[i], true) ==>
              Pos(i, w) in Play(d, FixedFlushTokens(cur, prev, w)).screen &&
              Play(d, FixedFlushTokens(cur, prev, w)).screen[Pos(i, w)] == Glyph(cur[i].ch, Rgb(cur[i].fg), Rgb(cur[i].bg))
    ensures forall p :: p in d.screen && !Touched(cur, prev, w, true, 0, p) ==>
              p in Play(d, FixedFlushTokens(cur, prev, w)).screen &&
              Play(d, FixedFlushTokens(cur, prev, w)).screen[p] == d.screen[p]
    ensures Play(d, FixedFlushTokens(cur, prev, w)).fg == Default
    ensures Play(d, FixedFlushTokens(cur, prev, w)).bg == Default
  {
    FixedFlushPainted(d, cur, prev, w);
    PaintedAt(d.screen, Glyphs(cur), cur, prev, w, true, 0);
  }

  // What the flush as written shows

  /** A colour plane of a cell: the foreground when `fore`, else the background. */
  function Ink(c: Cell, fore: bool): Color {
    if fore then c.fg else c.bg
  }

  /**
   * Some changed cell before `k` has a colour other than white on plane
   * `fore`: only such a cell makes the flush write an escape for that plane
   * while the running colour is still the wrapped -1.
   */
  ghost predicate Emitted(cur: seq<Cell>, prev: seq<Cell>, k: nat, fore: bool) {
    exists j :: 0 <= j < k && j < |cur| && j < |prev| && Changed(cur[j], prev[j]) && Ink(cur[j], fore) != White
  }

  /**
   * The pen plane `fore` of cell `i` is shown in, by a flush that starts on
   * a terminal at its default colours: the default until some changed cell
   * up to `i` has had a colour other than white on that plane, the cell's
   * own colour from then on.
   */
  ghost function ShownPen(cur: seq<Cell>, prev: seq<Cell>, i: nat, fore: bool): Pen
    requires i < |cur|
  {
    if Emitted(cur, prev, i + 1, fore) then Rgb(Ink(cur[i], fore)) else Default
  }

  /** What a flush as written shows for changed cell `i`: its character, each plane in its `ShownPen`. */
  ghost function ShownGlyph(cur: seq<Cell>, prev: seq<Cell>, i: nat): Glyph
    requires i < |cur|
  {
    Glyph(cur[i].ch, ShownPen(cur, prev, i, true), ShownPen(cur, prev, i, false))
  }

  ghost function Shown(cur: seq<Cell>, prev: seq<Cell>): (gs: seq<Glyph>)
    ensures |gs| == |cur|
  {
    seq(|cur|, i requires 0 <= i < |cur| => ShownGlyph(cur, prev, i))
  }

  lemma EmittedStep(cur: seq<Cell>, prev: seq<Cell>, k: nat, fore: bool)
    requires |cur| == |prev| && k < |cur|
    ensures Emitted(cur, prev, k + 1, fore) <==> Emitted(cur, prev, k, fore) || (Changed(cur[k], prev[k]) && Ink(cur[k], fore) != White)
  {
    if Emitted(cur, prev, k + 1, fore) && !Emitted(cur, prev, k, fore) {
      var j :| 0 <= j < k + 1 && j < |cur| && j < |prev| && Changed(cur[j], prev[j]) && Ink(cur[j], fore) != White;
      assert j == k;
    }
  }

  /**
   * The terminal's pen for one plane, given the running colour and whether
   * a non-white colour has been emitted: the default and the wrapped -1
   * before, the colour last emitted after.
   */
  predicate Follows(p: Pen, last: Option<Color>, emitted: bool) {
    if emitted then last.Some? && p == Rgb(last.value) else p == Default && last == Some(White)
  }

  lemma FollowsStep(p: Pen, last: Option<Color>, emitted: bool, c: Color)
    requires Follows(p, last, emitted)
    ensures Follows(PenAfter(p, last, c), Some(c), emitted || c != White)
    ensures PenAfter(p, last, c) == if emitted || c != White then Rgb(c) else Default
  {
  }

  /** From a terminal at its default colours, the flush as written paints each changed cell in its `ShownPen`s. */
  lemma {:induction false} DiffShows(d: Display, cur: seq<Cell>, prev: seq<Cell>, w: nat, k: nat, lastFg: Option<Color>, lastBg: Option<Color>)
    requires Shape(cur, prev, w) && k <= |cur|
    requires Follows(d.fg, lastFg, Emitted(cur, prev, k, true)) && Follows(d.bg, lastBg, Emitted(cur, prev, k, false))
    ensures Play(d, DiffFrom(cur, prev, w, false, k, lastFg, lastBg)).screen == Painted(d.screen, Shown(cur, prev), cur, prev, w, false, k)
    decreases |cur| - k
  {
    if k < |cur| {
      EmittedStep(cur, prev, k, true);
      EmittedStep(cur, prev, k, false);
      if Redraw(cur[k], prev[k], false) {
        var c := cur[k];
        var ct := CellTokens(k, w, c, lastFg, lastBg);
        PlayAppend(d, ct, DiffFrom(cur, prev, w, false, k + 1, Some(c.fg), Some(c.bg)));
        CellTokensPaint(d, k, w, c, lastFg, lastBg);
        FollowsStep(d.fg, lastFg, Emitted(cur, prev, k, true), c.fg);
        FollowsStep(d.bg, lastBg, Emitted(cur, prev, k, false), c.bg);
        assert Shown(cur, prev)[k] == ShownGlyph(cur, prev, k) == Glyph(c.ch, PenAfter(d.fg, lastFg, c.fg), PenAfter(d.bg, lastBg, c.bg));
        DiffShows(Play(d, ct), cur, prev, w, k + 1, Some(c.fg), Some(c.bg));
      } else {
        DiffShows(d, cur, prev, w, k + 1, lastFg, lastBg);
      }
    }
  }

  /** From a terminal at its default colours, a flush as written paints with `Shown` and ends at the default colours. */
  lemma FlushShown(d: Display, cur: seq<Cell>, prev: seq<Cell>, w: nat)
    requires Shape(cur, prev, w)
    requires d.fg == Default && d.bg == Default
    ensures Play(d, FlushTokens(cur, prev, w)).screen == Painted(d.screen, Shown(cur, prev), cur, prev, w, false, 0)
    ensures Play(d, FlushTokens(cur, prev, w)).fg == Default
    ensures Play(d, FlushTokens(cur, prev, w)).bg == Default
  {
    PlayFrame(d, DiffFrom(cur, prev, w, false, 0, Some(White), Some(White)));
    assert !Emitted(cur, prev, 0, true) && !Emitted(cur, prev, 0, false);
    DiffShows(d.(cursorShown := false), cur, prev, w, 0, Some(White), Some(White));
  }

  /**
   * What a flush as written shows. Every flush starts on a terminal at its
   * default colours (setting up the terminal writes no colour, and each
   * flush ends with an attribute reset, as this lemma also states). Each
   * changed cell then shows its character with each plane in its
   * `ShownPen`: a white plane before any non-white colour on that plane
   * shows in the terminal's default colour, not in white. Every other
   * position is left as it was.
   */
  lemma FlushShows(d: Display, cur: seq<Cell>, prev: seq<Cell>, w: nat)
    requires Shape(cur, prev, w)
    requires d.fg == Default && d.bg == Default
    ensures forall i :: 0 <= i < |cur| && Changed(cur[i], prev[i]) ==>
              Pos(i, w) in Play(d, FlushTokens(cur, prev, w)).screen &&
              Play(d, FlushTokens(cur, prev, w)).screen[Pos(i, w)] == ShownGlyph(cur, prev, i)
    ensures forall p :: p in d.screen && !Touched(cur, prev, w, false, 0, p) ==>
              p in Play(d, FlushTokens(cur, prev, w)).screen &&
              Play(d, FlushTokens(cur, prev, w)).screen[p] == d.screen[p]
    ensures Play(d, FlushTokens(cur, prev, w)).fg == Default
    ensures Play(d, FlushTokens(cur, prev, w)).bg == Default
  {
    FlushShown(d, cur, prev, w);
    PaintedAt(d.screen, Shown(cur, prev), cur, prev, w, false, 0);
  }

  /**
   * The white sentinel at work: when a changed cell is white on plane
   * `fore` and no changed cell before it has another colour on that plane,
   * the flush as written shows that plane in the terminal's default
   * colour, where the corrected flush shows white.
   */
  lemma WhiteShownAsDefault(d: Display, cur: seq<Cell>, prev: seq<Cell>, w: nat, i: nat, fore: bool)
    requires Shape(cur, prev, w) && i < |cur|
    requires d.fg == Default && d.bg == Default
    requires Changed(cur[i], prev[i]) && Ink(cur[i], fore) == White
    requires forall j :: 0 <= j < i && Changed(cur[j], prev[j]) ==> Ink(cur[j], fore) == White
    ensures Pos(i, w) in Play(d, FlushTokens(cur, prev, w)).screen
    ensures var g := Play(d, FlushTokens(cur, prev, w)).screen[Pos(i, w)];
            (if fore then g.fg else g.bg) == Default
    ensures Pos(i, w) in Play(d, FixedFlushTokens(cur, prev, w)).screen
    ensures var g := Play(d, FixedFlushTokens(cur, prev, w)).screen[Pos(i, w)];
            (if fore then g.fg else g.bg) == Rgb(White)
  {
    FlushShows(d, cur, prev, w);
    FixedFlushPaints(d, cur, prev, w);
    assert !Emitted(cur, prev, i + 1, fore);
  }
}
