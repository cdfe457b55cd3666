/**
 * The art-module registry of main.c and the pure parts of its control:
 * which modules exist and what each provides, the key dispatch of
 * `handle_input`, the name lookup behind `--start-with`, and the
 * Fisher-Yates shuffle behind `--random`.
 */
module Registry {
  import opened Cells
  import Terminal

  /**
   * An art module as main.c uses it: its name and which of the five
   * optional callbacks (`init` with width, height and palette, `update`,
   * `draw`, `destroy`, `handle_input`) it provides. The callbacks
   * themselves are effects outside this model.
   */
  datatype ArtModule = ArtModule(name: string, init: bool, update: bool, draw: bool, destroy: bool, input: bool)

  /** `num_art_modules`. */
  const Count := 9

  const Mandelbrot := ArtModule("mandelbrot", false, true, true, false, true)
  const Plasma := ArtModule("plasma", false, true, true, false, false)
  const Starfield := ArtModule("starfield", true, true, true, false, false)
  const Matrix := ArtModule("matrix", true, true, true, false, false)
  const GameOfLife := ArtModule("game-of-life", true, true, true, true, false)
  const Cube := ArtModule("cube", true, true, true, false, false)
  const Clock := ArtModule("clock", false, false, true, false, false)
  const Image := ArtModule("image", true, false, true, true, false)
  const Mtg := ArtModule("mtg", true, true, true, true, false)
  const MtgSixel := ArtModule("mtg-sixel", true, false, true, true, false)

  /** `populate_modules`: the fixed order, the last slot depending on sixel support. */
  function Populate(sixel: bool): (r: seq<ArtModule>)
    ensures |r| == Count
  {
    [Mandelbrot, Plasma, Starfield, Matrix, GameOfLife, Cube, Clock, Image, if sixel then MtgSixel else Mtg]
  }

  /** The modules shown as a sixel image, which the main loop treats as static. */
  predicate IsSixel(m: ArtModule) {
    m.name == "image" || m.name == "mtg-sixel"
  }

  // ---------------------------------------------------------------------
  // Key dispatch
  // ---------------------------------------------------------------------

  /** What `handle_input` returns to ask the main loop to quit. */
  const QuitSignal := -2

  /** The slide after `i`, wrapping from the last to the first. */
  function Next(i: int): int {
    (i + 1) % Count
  }

  /** The slide before `i`, wrapping from the first to the last. */
  function Prev(i: int): int {
    (i - 1 + Count) % Count
  }

  /** The result of `handle_input` and the two global flags after it. */
  datatype Dispatched = Dispatched(result: int, paused: bool, hud: bool)

  /** The global part of `handle_input` for key code `c` on slide `i`. */
  function Dispatch(c: int, i: int, paused: bool, hud: bool): Dispatched {
    if c == 'q' as int then Dispatched(QuitSignal, paused, hud)
    else if c == 'p' as int then Dispatched(i, !paused, hud)
    else if c == 'i' as int then Dispatched(i, paused, !hud)
    else if c == 'n' as int || c == Terminal.KeyRight then Dispatched(Next(i), paused, hud)
    else if c == 'b' as int || c == Terminal.KeyLeft then Dispatched(Prev(i), paused, hud)
    else Dispatched(i, paused, hud)
  }

  /** Whether the key is passed to the active module first: any key at all, when it has a handler. */
  predicate Forwarded(m: ArtModule, c: int) {
    c != Terminal.NoKey && m.input
  }

  /**
   * On a valid slide the result is the quit signal or a valid slide; it is
   * the quit signal exactly for `q`; `p` and `i` each flip exactly their
   * own flag; and the slide changes only for next or previous keys.
   */
  lemma DispatchSpec(c: int, i: int, paused: bool, hud: bool)
    requires 0 <= i < Count
    ensures var d := Dispatch(c, i, paused, hud);
      && (d.result == QuitSignal || 0 <= d.result < Count)
      && (d.result == QuitSignal <==> c == 'q' as int)
      && (d.paused != paused <==> c == 'p' as int)
      && (d.hud != hud <==> c == 'i' as int)
      && (d.result != i && d.result != QuitSignal ==>
            c in {'n' as int, 'b' as int, Terminal.KeyRight, Terminal.KeyLeft})
  {
  }

  /**
   * Next and previous stay on the registry, undo each other, and wrap:
   * next from the last slide is the first, previous from the first is the last.
   */
  lemma NextPrevInverse(i: int)
    requires 0 <= i < Count
    ensures 0 <= Next(i) < Count && 0 <= Prev(i) < Count
    ensures Prev(Next(i)) == i && Next(Prev(i)) == i
    ensures Next(Count - 1) == 0 && Prev(0) == Count - 1
  {
  }

  /** Pressing `n` then `b` (or right then left) returns to the same slide with the flags unchanged. */
  lemma NextThenBack(i: int, paused: bool, hud: bool)
    requires 0 <= i < Count
    ensures Dispatch('b' as int, Dispatch('n' as int, i, paused, hud).result, paused, hud) == Dispatched(i, paused, hud)
    ensures Dispatch(Terminal.KeyLeft, Dispatch(Terminal.KeyRight, i, paused, hud).result, paused, hud)
      == Dispatched(i, paused, hud)
  {
    NextPrevInverse(i);
  }

  // ---------------------------------------------------------------------
  // Name lookup
  // ---------------------------------------------------------------------

  /** The first index at or after `from` of a module called `name`. */
  function FindFrom(mods: seq<ArtModule>, name: string, from: nat): (r: Option<nat>)
    requires from <= |mods|
    ensures r.Some? ==> from <= r.value < |mods| && mods[r.value].name == name
    ensures r.Some? ==> forall j :: from <= j < r.value ==> mods[j].name != name
    ensures r.None? ==> forall j :: from <= j < |mods| ==> mods[j].name != name
    decreases |mods| - from
  {
    if from == |mods| then None
    else if mods[from].name == name then Some(from)
    else FindFrom(mods, name, from + 1)
  }

  /** The start index `--start-with name` leaves, starting from `start`: the first match, else `start`. */
  function StartIndex(mods: seq<ArtModule>, name: string, start: int): int {
    match FindFrom(mods, name, 0)
    case Some(i) => i
    case None => start
  }

  /** The start index after the `-s` options `names`, in order, each looked up in `mods`. */
  function StartAfter(mods: seq<ArtModule>, names: seq<string>, start: int): int
    decreases |names|
  {
    if names == [] then start
    else StartIndex(mods, names[|names| - 1], StartAfter(mods, names[..|names| - 1], start))
  }

  /**
   * The start is a valid index; it names the module of the last `-s`
   * option that names one; and it moves off `start` only to a module some
   * option names.
   */
  lemma {:induction false} StartAfterFinds(mods: seq<ArtModule>, names: seq<string>, start: int)
    requires 0 <= start < |mods|
    ensures var r := StartAfter(mods, names, start);
      && 0 <= r < |mods|
      && (names != [] && FindFrom(mods, names[|names| - 1], 0).Some? ==> mods[r].name == names[|names| - 1])
      && (r != start ==> exists k :: 0 <= k < |names| && mods[r].name == names[k])
    decreases |names|
  {
    if names != [] {
      var init := names[..|names| - 1];
      StartAfterFinds(mods, init, start);
      var r0 := StartAfter(mods, init, start);
      if StartAfter(mods, names, start) != start && StartAfter(mods, names, start) == r0 {
        var k :| 0 <= k < |init| && mods[r0].name == init[k];
        assert names[k] == init[k];
      }
    }
  }

  /** The registry's names are distinct, so each module's name finds that module. */
  lemma NamesDistinct(sixel: bool)
    ensures forall i, j :: 0 <= i < j < Count ==> Populate(sixel)[i].name != Populate(sixel)[j].name
    ensures forall i :: 0 <= i < Count ==> StartIndex(Populate(sixel), Populate(sixel)[i].name, 0) == i
  {
    var mods := Populate(sixel);
    assert mods[0].name == "mandelbrot" && mods[1].name == "plasma" && mods[2].name == "starfield";
    assert mods[3].name == "matrix" && mods[4].name == "game-of-life" && mods[5].name == "cube";
    assert mods[6].name == "clock" && mods[7].name == "image";
    assert mods[8].name == "mtg-sixel" || mods[8].name == "mtg";
    forall i | 0 <= i < Count ensures StartIndex(mods, mods[i].name, 0) == i {
      var r := FindFrom(mods, mods[i].name, 0);
      assert r.Some?;
    }
  }

  // ---------------------------------------------------------------------
  // Shuffle
  // ---------------------------------------------------------------------

  /** `s` with the elements at `i` and `j` exchanged. */
  function Swap<T>(s: seq<T>, i: int, j: int): (r: seq<T>)
    requires 0 <= i < |s| && 0 <= j < |s|
    ensures |r| == |s|
    ensures r[i] == s[j] && r[j] == s[i]
    ensures forall k :: 0 <= k < |s| && k != i && k != j ==> r[k] == s[k]
  {
    s[i := s[j]][j := s[i]]
  }

  /**
   * The partner `shuffle_modules` picks for position `i` of an `n`-element
   * array: the `rand()` of that iteration (the first iteration, for
   * `i = n - 1`, makes call 0) modulo `i + 1`.
   */
  function Pick(rand: nat -> nat, n: int, i: nat): (j: nat)
    ensures j <= i
  {
    rand(if n - 1 - i >= 0 then n - 1 - i else 0) % (i + 1)
  }

  /** The iterations of `shuffle_modules` for positions `i`, `i-1`, ..., 1. */
  function ShuffleFrom<T>(s: seq<T>, rand: nat -> nat, i: nat): (r: seq<T>)
    requires i < |s|
    ensures |r| == |s|
    decreases i
  {
    if i == 0 then s else ShuffleFrom(Swap(s, i, Pick(rand, |s|, i)), rand, i - 1)
  }

  /** The whole shuffle of `s`. */
  function Shuffled<T>(s: seq<T>, rand: nat -> nat): seq<T> {
    if |s| == 0 then s else ShuffleFrom(s, rand, |s| - 1)
  }

  /** The shuffle is a permutation: the same elements, each as often as before. */
  lemma {:induction false} ShufflePermutes<T>(s: seq<T>, rand: nat -> nat, i: nat)
    requires i < |s|
    ensures multiset(ShuffleFrom(s, rand, i)) == multiset(s)
    decreases i
  {
    if i > 0 {
      ShufflePermutes(Swap(s, i, Pick(rand, |s|, i)), rand, i - 1);
    }
  }

  /** Positions above `i` are final: the iterations still to come only swap at or below `i`. */
  lemma {:induction false} ShuffleKeepsAbove<T>(s: seq<T>, rand: nat -> nat, i: nat, k: int)
    requires i < k < |s|
    ensures ShuffleFrom(s, rand, i)[k] == s[k]
    decreases i
  {
    if i > 0 {
      ShuffleKeepsAbove(Swap(s, i, Pick(rand, |s|, i)), rand, i - 1, k);
    }
  }

  /** The whole registry shuffled is still the registry, in some order. */
  lemma ShuffledIsPermutation<T>(s: seq<T>, rand: nat -> nat)
    ensures multiset(Shuffled(s, rand)) == multiset(s)
  {
    if |s| > 0 {
      ShufflePermutes(s, rand, |s| - 1);
    }
  }

  /**
   * When the first draw picks position 0, the first iteration swaps the
   * head into the last slot, and no later iteration touches that slot.
   */
  lemma FirstDrawToLast<T>(s: seq<T>, rand: nat -> nat)
    requires |s| >= 2 && rand(0) % |s| == 0
    ensures Shuffled(s, rand)[|s| - 1] == s[0]
  {
    var n := |s|;
    assert Pick(rand, n, n - 1) == 0;
    var first := Swap(s, n - 1, 0);
    assert Shuffled(s, rand) == ShuffleFrom(first, rand, n - 2);
    ShuffleKeepsAbove(first, rand, n - 2, n - 1);
  }

  /**
   * Looking `-s` up before `-r` shuffles misses: `-r -s mtg` resolves
   * "mtg" to slot 8 of the registry in order, and a shuffle whose first
   * draw is a multiple of 9 moves the Mandelbrot module into slot 8 for good.
   */
  lemma StartBeforeShuffleMisses(rand: nat -> nat)
    requires rand(0) % Count == 0
    ensures StartAfter(Populate(false), ["mtg"], 0) == 8
    ensures Shuffled(Populate(false), rand)[8] == Mandelbrot
  {
    var mods := Populate(false);
    NamesDistinct(false);
    assert ["mtg"][..0] == [];
    assert StartAfter(mods, ["mtg"], 0) == StartIndex(mods, mods[8].name, 0);
    FirstDrawToLast(mods, rand);
  }
}
